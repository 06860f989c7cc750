/** How `GDBM.new` and `GDBM.open` decide which `gdbm_open` calls to make
    (lib/gdbm.rb:217-276). The engine's `gdbm_open` is an oracle that either
    hands back a database or fails; `gdbm_errno` after the last failure is an
    input. */
module OpenMode {
  import opened Base
  import opened Engine
  import opened Lifecycle

  // Open modes of the native library (GDBM_FFI::READER ...).
  const GDBM_READER: bv32 := 0
  const GDBM_WRITER: bv32 := 1
  const GDBM_WRCREAT: bv32 := 2
  const GDBM_NEWDB: bv32 := 3

  /** Marks a flags word that already names an engine open mode. */
  const RW_BIT: bv32 := 0x2000_0000

  // The class constants GDBM::READER ... carry the marker bit.
  const READER: bv32 := GDBM_READER | RW_BIT
  const WRITER: bv32 := GDBM_WRITER | RW_BIT
  const WRCREAT: bv32 := GDBM_WRCREAT | RW_BIT
  const NEWDB: bv32 := GDBM_NEWDB | RW_BIT

  const BLOCKSIZE: int := 2048

  // gdbm_errno values that make a failed open a SystemCallError.
  const FILE_OPEN_ERROR: int := 3
  const CANT_BE_READER: int := 9
  const CANT_BE_WRITER: int := 10

  /** The arguments of one `gdbm_open` call besides the file name. */
  datatype Attempt = Attempt(blockSize: int, flags: bv32, mode: int)

  /** `gdbm_open` as this layer sees it: a database, or a null handle. */
  type Opener = Attempt -> Option<Db>

  /** What `GDBM.new` ends with: a live handle obtained by one attempt, an
      object whose `@file` stayed nil, or an exception. */
  datatype Outcome = Opened(via: Attempt, db: Db) | NilObject | Raised(error: Error)

  /** The attempts made, in order, and the outcome. */
  datatype Resolution = Resolution(tried: seq<Attempt>, outcome: Outcome)

  /** `mode = -1 if mode.nil?` */
  function NormalMode(mode: Option<int>): int {
    if mode.None? then -1 else mode.value
  }

  /** `flags = 0 if flags.nil?` */
  function NormalFlags(flags: Option<bv32>): bv32 {
    if flags.None? then 0 else flags.value
  }

  predicate IsExplicit(f: bv32) {
    f & RW_BIT != 0
  }

  /** The handle so far and the attempts that produced it. */
  datatype Progress = Progress(tried: seq<Attempt>, handle: Option<(Attempt, Db)>)

  /** `@file = GDBM_FFI.open(...) if @file.nil?`: one more attempt, made only
      while no attempt has succeeded yet. */
  function TryIfNull(p: Progress, a: Attempt, gdbmOpen: Opener): (q: Progress)
    ensures p.handle.Some? ==> q == p
    ensures p.handle.None? ==> q.tried == p.tried + [a]
    ensures p.handle.None? ==> (q.handle.Some? <==> gdbmOpen(a).Some?)
    ensures q.handle.Some? && p.handle.None? ==> q.handle.value == (a, gdbmOpen(a).value)
  {
    if p.handle.Some? then p
    else
      match gdbmOpen(a)
      case None => Progress(p.tried + [a], None)
      case Some(db) => Progress(p.tried + [a], Some((a, db)))
  }

  /** What happens when every attempt has failed: silence for a nil mode,
      otherwise SystemCallError for the three open-related errno values and
      GDBMError for any other. */
  function AllFailed(m: int, errno: int): (o: Outcome)
    ensures o == NilObject <==> m == -1
    ensures o.Raised? ==> (o.error == SystemCall <==> errno == FILE_OPEN_ERROR || errno == CANT_BE_READER || errno == CANT_BE_WRITER)
    ensures o.Raised? ==> o.error == SystemCall || o.error == GdbmError
    ensures !o.Opened?
  {
    if m == -1 then NilObject
    else if errno == FILE_OPEN_ERROR || errno == CANT_BE_READER || errno == CANT_BE_WRITER then Raised(SystemCall)
    else Raised(GdbmError)
  }

  function Conclude(p: Progress, m: int, errno: int): Outcome {
    match p.handle
    case Some(h) => Opened(h.0, h.1)
    case None => AllFailed(m, errno)
  }

  /** The attempts made so far all failed except possibly the last, and a
      handle is held exactly when the last one succeeded. */
  ghost predicate Settled(p: Progress, gdbmOpen: Opener) {
    && |p.tried| >= 1
    && (forall i :: 0 <= i < |p.tried| - 1 ==> gdbmOpen(p.tried[i]).None?)
    && (p.handle.Some? <==> gdbmOpen(p.tried[|p.tried| - 1]).Some?)
    && (p.handle.Some? ==> p.handle.value == (p.tried[|p.tried| - 1], gdbmOpen(p.tried[|p.tried| - 1]).value))
  }

  /** The marker bit was set: it is cleared and exactly one attempt is made,
      with the caller's mode; there is no fallback. */
  function ExplicitOpen(m: int, f: bv32, gdbmOpen: Opener): (p: Progress)
    ensures p.tried == [Attempt(BLOCKSIZE, f & !RW_BIT, m)]
    ensures Settled(p, gdbmOpen)
  {
    TryIfNull(Progress([], None), Attempt(BLOCKSIZE, f & !RW_BIT, m), gdbmOpen)
  }

  /** No marker bit: create (caller's mode, only when mode >= 0), then writer,
      then reader (mode 0), each only while `@file` is still nil. The class
      constants, marker bit included, are passed straight to `gdbm_open`. */
  function AutoOpen(m: int, f: bv32, gdbmOpen: Opener): (p: Progress)
    ensures 1 <= |p.tried| <= 3
    ensures Settled(p, gdbmOpen)
  {
    var create := if m >= 0 then Some(Attempt(BLOCKSIZE, WRCREAT | f, m)) else None;
    Climb(create, Attempt(BLOCKSIZE, WRITER | f, 0), Attempt(BLOCKSIZE, READER | f, 0), gdbmOpen)
  }

  /** The three `@file = ... if @file.nil?` lines, the first one optional. */
  function Climb(create: Option<Attempt>, writer: Attempt, reader: Attempt, gdbmOpen: Opener): (p: Progress)
    ensures 1 <= |p.tried| <= 3
    ensures Settled(p, gdbmOpen)
  {
    var start := Progress([], None);
    var p1 := if create.Some? then TryIfNull(start, create.value, gdbmOpen) else start;
    var p2 := TryIfNull(p1, writer, gdbmOpen);
    TryIfNull(p2, reader, gdbmOpen)
  }

  /** `GDBM#initialize`: normalise the arguments, pick the explicit or the
      fallback path by the marker bit, and settle the outcome. */
  function Initialize(mode: Option<int>, flags: Option<bv32>, gdbmOpen: Opener, errno: int): (r: Resolution)
    ensures IsExplicit(NormalFlags(flags)) ==>
      r.tried == [Attempt(BLOCKSIZE, NormalFlags(flags) & !RW_BIT, NormalMode(mode))]
    ensures 1 <= |r.tried| <= 3
    ensures forall i :: 0 <= i < |r.tried| - 1 ==> gdbmOpen(r.tried[i]).None?
    ensures r.outcome.Opened? <==> gdbmOpen(r.tried[|r.tried| - 1]).Some?
    ensures r.outcome.Opened? ==>
      r.outcome.via == r.tried[|r.tried| - 1] && gdbmOpen(r.outcome.via) == Some(r.outcome.db)
    ensures !r.outcome.Opened? ==> r.outcome == AllFailed(NormalMode(mode), errno)
  {
    var m := NormalMode(mode);
    var f := NormalFlags(flags);
    var p := if IsExplicit(f) then ExplicitOpen(m, f, gdbmOpen) else AutoOpen(m, f, gdbmOpen);
    assert |p.tried| <= 3;
    ConcludeSettled(p, m, errno, gdbmOpen);
    Resolution(p.tried, Conclude(p, m, errno))
  }

  /** A settled search ends in a handle from its last attempt exactly when
      that attempt opened, and otherwise in the failure classification. */
  lemma ConcludeSettled(p: Progress, m: int, errno: int, gdbmOpen: Opener)
    requires Settled(p, gdbmOpen)
    ensures Conclude(p, m, errno).Opened? <==> gdbmOpen(p.tried[|p.tried| - 1]).Some?
    ensures Conclude(p, m, errno).Opened? ==>
      Conclude(p, m, errno).via == p.tried[|p.tried| - 1]
      && gdbmOpen(Conclude(p, m, errno).via) == Some(Conclude(p, m, errno).db)
    ensures !Conclude(p, m, errno).Opened? ==> Conclude(p, m, errno) == AllFailed(m, errno)
  {
  }

  // ---- an independent statement of the fallback ladder ----

  /** Every attempt the fallback path may make, in order. */
  function Ladder(m: int, f: bv32): seq<Attempt> {
    (if m >= 0 then [Attempt(BLOCKSIZE, WRCREAT | f, m)] else [])
    + [Attempt(BLOCKSIZE, WRITER | f, 0), Attempt(BLOCKSIZE, READER | f, 0)]
  }

  /** Index of the first attempt in `plan` that succeeds, `|plan|` if none does. */
  function FirstOpen(plan: seq<Attempt>, gdbmOpen: Opener): (i: nat)
    ensures i <= |plan|
    ensures forall j :: 0 <= j < i ==> gdbmOpen(plan[j]).None?
    ensures i < |plan| ==> gdbmOpen(plan[i]).Some?
  {
    if |plan| == 0 then 0
    else if gdbmOpen(plan[0]).Some? then 0
    else 1 + FirstOpen(plan[1..], gdbmOpen)
  }

  /** The fallback path makes exactly the ladder's attempts up to and including
      the first that succeeds, and holds a handle exactly when some rung succeeds. */
  lemma AutoFollowsLadder(m: int, f: bv32, gdbmOpen: Opener)
    ensures var plan := Ladder(m, f);
      var i := FirstOpen(plan, gdbmOpen);
      var p := AutoOpen(m, f, gdbmOpen);
      && (i < |plan| ==> p.tried == plan[..i + 1] && p.handle.Some? && p.handle.value.0 == plan[i])
      && (i == |plan| ==> p.tried == plan && p.handle.None?)
  {
    var create := if m >= 0 then Some(Attempt(BLOCKSIZE, WRCREAT | f, m)) else None;
    var writer := Attempt(BLOCKSIZE, WRITER | f, 0);
    var reader := Attempt(BLOCKSIZE, READER | f, 0);
    assert Ladder(m, f) == (if create.Some? then [create.value] else []) + [writer, reader];
    ClimbFollowsPlan(create, writer, reader, gdbmOpen);
  }

  lemma ClimbFollowsPlan(create: Option<Attempt>, writer: Attempt, reader: Attempt, gdbmOpen: Opener)
    ensures var plan := (if create.Some? then [create.value] else []) + [writer, reader];
      var i := FirstOpen(plan, gdbmOpen);
      var p := Climb(create, writer, reader, gdbmOpen);
      && (i < |plan| ==> p.tried == plan[..i + 1] && p.handle.Some? && p.handle.value.0 == plan[i])
      && (i == |plan| ==> p.tried == plan && p.handle.None?)
  {
    assert [writer, reader][1..] == [reader] && [reader][1..] == [];
    if create.Some? {
      var plan := [create.value, writer, reader];
      assert plan[1..] == [writer, reader];
      assert plan[..1] == [create.value] && plan[..2] == [create.value, writer] && plan[..3] == plan;
    } else {
      var plan := [writer, reader];
      assert [] + plan == plan;
      assert plan[..1] == [writer] && plan[..2] == plan;
    }
  }

  /** The fallback path hands the marker bit through to every `gdbm_open`,
      while the explicit path strips it. Only the create rung uses the
      caller's mode, and it is skipped for a negative mode. */
  lemma MarkerBitQuirk(m: int, f: bv32, gdbmOpen: Opener)
    ensures ExplicitOpen(m, f, gdbmOpen).tried[0].flags & RW_BIT == 0
    ensures forall a :: a in AutoOpen(m, f, gdbmOpen).tried ==> a.flags & RW_BIT == RW_BIT && a.blockSize == BLOCKSIZE
    ensures m < 0 ==> forall a :: a in AutoOpen(m, f, gdbmOpen).tried ==> a.mode == 0
    ensures m >= 0 ==> AutoOpen(m, f, gdbmOpen).tried[0] == Attempt(BLOCKSIZE, WRCREAT | f, m)
  {
    var create := if m >= 0 then Some(Attempt(BLOCKSIZE, WRCREAT | f, m)) else None;
    var writer := Attempt(BLOCKSIZE, WRITER | f, 0);
    var reader := Attempt(BLOCKSIZE, READER | f, 0);
    ClimbRungs(create, writer, reader, gdbmOpen);
    MarkerBits(f);
  }

  /** Every attempt of the ladder is one of its three rungs, the optional
      create rung coming first. */
  lemma ClimbRungs(create: Option<Attempt>, writer: Attempt, reader: Attempt, gdbmOpen: Opener)
    ensures forall a :: a in Climb(create, writer, reader, gdbmOpen).tried ==>
      a == writer || a == reader || (create.Some? && a == create.value)
    ensures create.Some? ==> Climb(create, writer, reader, gdbmOpen).tried[0] == create.value
  {
  }

  /** The marker bit survives `|` with a class constant and not `& ~`. */
  lemma MarkerBits(f: bv32)
    ensures (WRCREAT | f) & RW_BIT == RW_BIT
    ensures (WRITER | f) & RW_BIT == RW_BIT
    ensures (READER | f) & RW_BIT == RW_BIT
    ensures (f & !RW_BIT) & RW_BIT == 0
  {
  }

  /** The class constants are explicit, and stripping the marker bit leaves
      the engine's own mode. */
  lemma ClassConstants()
    ensures IsExplicit(READER) && READER & !RW_BIT == GDBM_READER
    ensures IsExplicit(WRITER) && WRITER & !RW_BIT == GDBM_WRITER
    ensures IsExplicit(WRCREAT) && WRCREAT & !RW_BIT == GDBM_WRCREAT
    ensures IsExplicit(NEWDB) && NEWDB & !RW_BIT == GDBM_NEWDB
  {
  }

  /** An engine that honours the open mode: a handle is writable exactly when
      the low two bits of its flags name a writer mode. */
  ghost predicate HonoursMode(gdbmOpen: Opener) {
    forall a :: gdbmOpen(a).Some? ==> (gdbmOpen(a).value.writable <==> a.flags & 3 != GDBM_READER)
  }

  /** Against such an engine, the object `GDBM.new` opens is writable exactly
      when the attempt that opened it asked for a writer mode. */
  lemma OpenedWritability(mode: Option<int>, flags: Option<bv32>, gdbmOpen: Opener, errno: int)
    requires HonoursMode(gdbmOpen)
    requires Initialize(mode, flags, gdbmOpen, errno).outcome.Opened?
    ensures New(mode, flags, gdbmOpen, errno).Ok? && New(mode, flags, gdbmOpen, errno).value.file.Live?
    ensures New(mode, flags, gdbmOpen, errno).value.file.db.writable
        <==> Initialize(mode, flags, gdbmOpen, errno).outcome.via.flags & 3 != GDBM_READER
  {
  }

  /** Without flags, when the create and writer rungs both fail (another
      process holds the writer lock, say), `GDBM.new` still succeeds, on the
      reader rung, and the object it returns is read-only. */
  lemma ReaderFallback(mode: Option<int>, gdbmOpen: Opener, errno: int)
    requires HonoursMode(gdbmOpen)
    requires NormalMode(mode) < 0 || gdbmOpen(Attempt(BLOCKSIZE, WRCREAT, NormalMode(mode))).None?
    requires gdbmOpen(Attempt(BLOCKSIZE, WRITER, 0)).None?
    requires gdbmOpen(Attempt(BLOCKSIZE, READER, 0)).Some?
    ensures New(mode, None, gdbmOpen, errno).Ok?
    ensures New(mode, None, gdbmOpen, errno).value.file.Live?
    ensures !New(mode, None, gdbmOpen, errno).value.file.db.writable
  {
    var m := NormalMode(mode);
    assert WRCREAT | 0 == WRCREAT && WRITER | 0 == WRITER && READER | 0 == READER;
    assert READER & 3 == GDBM_READER;
    AutoFollowsLadder(m, 0, gdbmOpen);
    var r := Initialize(mode, None, gdbmOpen, errno);
    assert r.outcome.Opened? && r.outcome.via == Attempt(BLOCKSIZE, READER, 0);
  }

  /** When nothing opens: a nil mode (or an explicit -1) yields a silent object,
      any other mode raises, classified by `gdbm_errno`. */
  lemma FailureClassified(mode: Option<int>, flags: Option<bv32>, gdbmOpen: Opener, errno: int)
    requires forall a :: gdbmOpen(a).None?
    ensures var r := Initialize(mode, flags, gdbmOpen, errno);
      && (r.outcome == NilObject <==> NormalMode(mode) == -1)
      && (r.outcome == Raised(SystemCall) <==>
            NormalMode(mode) != -1 && (errno == FILE_OPEN_ERROR || errno == CANT_BE_READER || errno == CANT_BE_WRITER))
      && (r.outcome == Raised(GdbmError) <==>
            NormalMode(mode) != -1 && !(errno == FILE_OPEN_ERROR || errno == CANT_BE_READER || errno == CANT_BE_WRITER))
  {
  }

  /** The object `GDBM.new` returns, or the exception it raises. A silent
      failure leaves `@file` nil, so the object answers `nil?` and `closed?`. */
  function New(mode: Option<int>, flags: Option<bv32>, gdbmOpen: Opener, errno: int): (r: Result<Gdbm>)
    ensures var o := Initialize(mode, flags, gdbmOpen, errno).outcome;
      && (o.Opened? ==> r == Ok(GdbmObject(Live(o.db), false)))
      && (o.NilObject? ==> r.Ok? && IsClosed(r.value) && !r.value.frozen)
      && (o.Raised? ==> r == Err(o.error))
  {
    match Initialize(mode, flags, gdbmOpen, errno).outcome
    case Opened(_, db) => Ok(GdbmObject(Live(db), false))
    case NilObject => Ok(GdbmObject(Null, false))
    case Raised(e) => Err(e)
  }

  /** `GDBM.open` without a block: the live object, or nil for the silent failure. */
  function Open(mode: Option<int>, flags: Option<bv32>, gdbmOpen: Opener, errno: int): (r: Result<Option<Gdbm>>)
    ensures r.Ok? && r.value.None? <==> Initialize(mode, flags, gdbmOpen, errno).outcome.NilObject?
    ensures r.Ok? && r.value.Some? ==> r.value.value.file.Live?
    ensures r.Err? <==> Initialize(mode, flags, gdbmOpen, errno).outcome.Raised?
  {
    match New(mode, flags, gdbmOpen, errno)
    case Err(e) => Err(e)
    case Ok(obj) => if IsNil(obj) then Ok(None) else Ok(Some(obj))
  }

  /** The object as left after `GDBM.open`'s block, if one was made, and the
      block's value or the exception that ends the call. */
  datatype Scoped<+R> = Scoped(obj: Option<Gdbm>, out: Result<R>)

  /** `GDBM.open` with a block: the block runs on the new object (even the
      silent nil one), and afterwards the object is closed unless it already
      reports `closed?`. An exception from that close replaces the block's result. */
  function OpenScoped<R>(mode: Option<int>, flags: Option<bv32>, gdbmOpen: Opener, errno: int,
                         block: Gdbm -> Reply<R>): (r: Scoped<R>)
    ensures New(mode, flags, gdbmOpen, errno).Err? ==> r == Scoped(None, Err(New(mode, flags, gdbmOpen, errno).error))
    ensures r.obj.Some? ==> IsClosed(r.obj.value) || r.obj.value.frozen
    ensures r.obj.Some? ==> !r.obj.value.file.Live?
    ensures New(mode, flags, gdbmOpen, errno).Ok? ==>
      var after := block(New(mode, flags, gdbmOpen, errno).value);
      r.obj.Some? && (after.obj.file.Live? || IsClosed(after.obj) ==> r.out == after.out)
  {
    match New(mode, flags, gdbmOpen, errno)
    case Err(e) => Scoped(None, Err(e))
    case Ok(obj) =>
      var after := block(obj);
      if IsClosed(after.obj) then Scoped(Some(after.obj), after.out)
      else
        var c := Close(after.obj);
        if c.out.Err? then Scoped(Some(c.obj), Err(c.out.error))
        else Scoped(Some(c.obj), after.out)
  }
}
