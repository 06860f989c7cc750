/** The mutating half of the `GDBM` dictionary facade (lib/gdbm.rb:282-297,
    312-343, 472-482, 515-531, 553-558). Each guarded method runs
    `modifiable?` and then `file`, so a frozen object is refused before a
    closed one; the engine refuses writes on a reader handle with GDBMError.
    A failing method leaves the object as it was, except `delete_if`, whose
    deletions run even when its block escapes. */
module Mutate {
  import opened Base
  import opened Engine
  import Ffi
  import opened Walk
  import opened Lifecycle
  import Lookup
  import OpenMode

  /** `[]=` (also `store`). */
  function Put(g: Gdbm, k: Bytes, v: Bytes): (r: Reply<()>)
    ensures g.frozen ==> r == Reply(g, Err(FrozenObject))
    ensures !g.frozen && IsClosed(g) ==> r == Reply(g, Err(ClosedFile))
    ensures !g.frozen && g.file.Live? ==> (r.out.Ok? <==> g.file.db.writable)
    ensures !g.frozen && g.file.Live? && r.out.Err? ==> r.out.error == GdbmError
    ensures r.out.Err? ==> r.obj == g
    ensures r.out.Ok? ==> g.file.Live? && r.obj.file.Live? && r.obj.file.db.entries == g.file.db.entries[k := v]
    ensures r.obj.frozen == g.frozen
  {
    match Writable(g)
    case Err(e) => Reply(g, Err(e))
    case Ok(d) =>
      match Ffi.Store(d, k, v)
      case Err(e) => Reply(g, Err(e))
      case Ok(d') => Reply(WithDb(g, d'), Ok(()))
  }

  /** After a successful `[]=`, `[]` answers the stored value, `has_key?` is
      true, and every other key reads as before. */
  lemma PutThenGet(g: Gdbm, k: Bytes, v: Bytes)
    requires Put(g, k, v).out.Ok?
    ensures Lookup.Get(Put(g, k, v).obj, k) == Ok(Some(v))
    ensures Lookup.HasKey(Put(g, k, v).obj, k) == Ok(true)
    ensures forall x :: x != k ==> Lookup.Get(Put(g, k, v).obj, x) == Lookup.Get(g, x)
  {
  }

  /** An object `GDBM.new` obtained from the reader rung of the fallback
      ladder reads, but refuses `[]=` with GDBMError and stays as it was. */
  lemma ReaderFallbackRefusesPut(mode: Option<int>, gdbmOpen: OpenMode.Opener, errno: int, k: Bytes, v: Bytes)
    requires OpenMode.HonoursMode(gdbmOpen)
    requires OpenMode.NormalMode(mode) < 0
      || gdbmOpen(OpenMode.Attempt(OpenMode.BLOCKSIZE, OpenMode.WRCREAT, OpenMode.NormalMode(mode))).None?
    requires gdbmOpen(OpenMode.Attempt(OpenMode.BLOCKSIZE, OpenMode.WRITER, 0)).None?
    requires gdbmOpen(OpenMode.Attempt(OpenMode.BLOCKSIZE, OpenMode.READER, 0)).Some?
    ensures OpenMode.New(mode, None, gdbmOpen, errno).Ok?
    ensures var g := OpenMode.New(mode, None, gdbmOpen, errno).value;
      && Put(g, k, v) == Reply(g, Err(GdbmError))
      && Lookup.Get(g, k).Ok?
  {
    OpenMode.ReaderFallback(mode, gdbmOpen, errno);
  }

  /** `delete`: the old value, or for a missing key the block's answer (or
      nil). A missing key is not an error, and only a present key reaches the
      engine's delete. */
  function Delete(g: Gdbm, k: Bytes, block: Option<Bytes -> Option<Bytes>>): (r: Reply<Option<Bytes>>)
    ensures g.frozen ==> r == Reply(g, Err(FrozenObject))
    ensures !g.frozen && IsClosed(g) ==> r == Reply(g, Err(ClosedFile))
    ensures !g.frozen && g.file.Live? ==> (r.out.Ok? <==> g.file.db.writable || k !in g.file.db.entries)
    ensures !g.frozen && g.file.Live? && r.out.Err? ==> r.out.error == GdbmError
    ensures r.out.Err? ==> r.obj == g
    ensures r.out.Ok? ==> g.file.Live? && r.obj.file.Live? && r.obj.file.db.entries == g.file.db.entries - {k}
    ensures r.out.Ok? && k in g.file.db.entries ==> r.out.value == Some(g.file.db.entries[k])
    ensures r.out.Ok? && k !in g.file.db.entries ==>
      r.obj == g && r.out.value == (if block.Some? then block.value(k) else None)
    ensures r.obj.frozen == g.frozen
  {
    match Writable(g)
    case Err(e) => Reply(g, Err(e))
    case Ok(d) =>
      var found := Ffi.Fetch(d, k);
      var value := if found.None? && block.Some? then block.value(k) else found;
      match Ffi.Delete(d, k)
      case Err(e) => Reply(g, Err(e))
      case Ok(d') => Reply(WithDb(g, d'), Ok(value))
  }

  /** After a successful `delete` the key is gone ... */
  lemma DeleteRemoves(g: Gdbm, k: Bytes, block: Option<Bytes -> Option<Bytes>>)
    requires Delete(g, k, block).out.Ok?
    ensures Lookup.HasKey(Delete(g, k, block).obj, k) == Ok(false)
  {
    assert Delete(g, k, block).obj.file.db.entries == g.file.db.entries - {k};
  }

  /** ... and `length` drops by one exactly when it was there. */
  lemma DeleteShrinks(g: Gdbm, k: Bytes, block: Option<Bytes -> Option<Bytes>>)
    requires Delete(g, k, block).out.Ok?
    ensures Lookup.Length(g).Ok?
    ensures Lookup.Length(Delete(g, k, block).obj)
         == Ok(if k in g.file.db.entries then Lookup.Length(g).value - 1 else Lookup.Length(g).value)
  {
    var d := g.file.db;
    var e := Delete(g, k, block).obj.file.db.entries;
    assert e == d.entries - {k};
    if k in d.entries {
      RemoveOneSize(d.entries, k);
    }
  }

  lemma RemoveOneSize(m: map<Bytes, Bytes>, k: Bytes)
    requires k in m
    ensures |m - {k}| == |m| - 1
  {
    assert m.Keys == (m - {k}).Keys + {k};
  }

  // ---- delete_if ----

  /** What a block answers for one pair: a truthy or falsy value, or it leaves
      the walk early (`break`, `return` or an exception). */
  datatype Verdict = Truthy | Falsy | Escapes

  /** The state of the first phase of `delete_if`: keys picked so far, and
      whether the block has left the walk. */
  datatype Collected = Collected(rejects: seq<Bytes>, escaped: bool)

  /** One yield of the collecting walk; after an escape nothing more is seen. */
  function CollectStep(block: (Bytes, Bytes) -> Verdict): (Collected, Pair) -> Collected
  {
    (c: Collected, p: Pair) =>
      if c.escaped then c
      else match block(p.0, p.1)
        case Truthy => Collected(c.rejects + [p.0], false)
        case Falsy => c
        case Escapes => Collected(c.rejects, true)
  }

  function Collect(d: Db, block: (Bytes, Bytes) -> Verdict): Collected
  {
    Accumulate(Pairs(d), Collected([], false), CollectStep(block))
  }

  /** The block leaves the walk at one of the first `n` entries. */
  ghost predicate EscapesBefore(d: Db, block: (Bytes, Bytes) -> Verdict, n: nat)
    requires n <= |d.order|
  {
    exists j :: 0 <= j < n && block(d.order[j], d.entries[d.order[j]]) == Escapes
  }

  /** The walk reached `k` and the block answered truthy for it. */
  ghost predicate Doomed(d: Db, block: (Bytes, Bytes) -> Verdict, k: Bytes) {
    && k in d.entries
    && block(k, d.entries[k]) == Truthy
    && !EscapesBefore(d, block, IndexOf(d.order, k))
  }

  /** What the collecting walk holds after the first `n` pairs. */
  ghost predicate CollectedSoFar(d: Db, block: (Bytes, Bytes) -> Verdict, n: nat, c: Collected)
    requires n <= |d.order|
  {
    && (c.escaped <==> EscapesBefore(d, block, n))
    && (forall k :: k in c.rejects <==> k in d.entries && IndexOf(d.order, k) < n && Doomed(d, block, k))
  }

  lemma {:induction false} CollectPrefix(d: Db, block: (Bytes, Bytes) -> Verdict, n: nat)
    requires n <= |d.order|
    ensures CollectedSoFar(d, block, n, Accumulate(Pairs(d)[..n], Collected([], false), CollectStep(block)))
  {
    if n == 0 {
      assert Pairs(d)[..0] == [];
    } else {
      CollectPrefix(d, block, n - 1);
      var ps := Pairs(d);
      assert ps[..n] == ps[..n - 1] + [ps[n - 1]];
      AccumulateSnoc(ps[..n - 1], ps[n - 1], Collected([], false), CollectStep(block));
      CollectOne(d, block, n, Accumulate(ps[..n - 1], Collected([], false), CollectStep(block)));
    }
  }

  lemma CollectOne(d: Db, block: (Bytes, Bytes) -> Verdict, n: nat, prev: Collected)
    requires 0 < n <= |d.order|
    requires CollectedSoFar(d, block, n - 1, prev)
    ensures CollectedSoFar(d, block, n, CollectStep(block)(prev, Pairs(d)[n - 1]))
  {
    var last := d.order[n - 1];
    var v := d.entries[last];
    IndexOfDistinct(d.order, n - 1);
    assert Pairs(d)[n - 1] == (last, v);
    var next := CollectStep(block)(prev, (last, v));
    var added := !prev.escaped && block(last, v) == Truthy;
    assert next.escaped <==> EscapesBefore(d, block, n) by {
      if prev.escaped {
        var j :| 0 <= j < n - 1 && block(d.order[j], d.entries[d.order[j]]) == Escapes;
      } else if block(last, v) == Escapes {
        assert block(d.order[n - 1], d.entries[d.order[n - 1]]) == Escapes;
      } else {
        assert !EscapesBefore(d, block, n);
      }
    }
    assert next.rejects == if added then prev.rejects + [last] else prev.rejects;
    assert Doomed(d, block, last) <==> added;
    forall k
      ensures k in next.rejects <==> k in d.entries && IndexOf(d.order, k) < n && Doomed(d, block, k)
    {
      if k in d.entries {
        Below(d, n, k);
      }
    }
  }

  /** A walk position below `n` is below `n - 1` or holds the `n`-th key. */
  lemma Below(d: Db, n: nat, k: Bytes)
    requires 0 < n <= |d.order| && k in d.entries
    ensures IndexOf(d.order, k) < n <==> IndexOf(d.order, k) < n - 1 || k == d.order[n - 1]
  {
    IndexOfDistinct(d.order, n - 1);
  }

  /** The collecting walk picks exactly the doomed keys, and escapes exactly
      when the block leaves early. */
  lemma CollectPicksDoomed(d: Db, block: (Bytes, Bytes) -> Verdict)
    ensures Collect(d, block).escaped <==> EscapesBefore(d, block, |d.order|)
    ensures forall k :: k in Collect(d, block).rejects <==> Doomed(d, block, k)
  {
    CollectPrefix(d, block, |d.order|);
    assert Pairs(d)[..|d.order|] == Pairs(d);
  }

  /** The second phase: delete each picked key in turn. */
  function DeleteAll(d: Db, ks: seq<Bytes>): (r: Result<Db>)
    decreases |ks|
    ensures r.Ok? <==> d.writable || forall k :: k in ks ==> k !in d.entries
    ensures r.Err? ==> r.error == GdbmError
    ensures r.Ok? ==> r.value.entries == d.entries - KeySet(ks)
    ensures r.Ok? ==> r.value.writable == d.writable
  {
    if |ks| == 0 then Ok(d)
    else
      match Ffi.Delete(d, ks[0])
      case Err(e) => Err(e)
      case Ok(d') =>
        var r := DeleteAll(d', ks[1..]);
        KeySetCons(ks);
        MinusTwice(d.entries, ks[0], KeySet(ks[1..]));
        r
  }

  /** The keys listed in `ks`. */
  function KeySet(ks: seq<Bytes>): set<Bytes> {
    set k | k in ks
  }

  lemma KeySetCons(ks: seq<Bytes>)
    requires |ks| > 0
    ensures KeySet(ks) == {ks[0]} + KeySet(ks[1..])
  {
    assert forall k :: k in ks <==> k == ks[0] || k in ks[1..];
  }

  lemma MinusTwice(m: map<Bytes, Bytes>, a: Bytes, s: set<Bytes>)
    ensures (m - {a}) - s == m - ({a} + s)
  {
  }

  /** `delete_if` (also `reject!`): walk once collecting the keys the block
      accepts, then delete them. The deletions run in an `ensure`, so they
      happen even when the block escapes; the escape is then passed on,
      unless a deletion raised GDBMError, which takes its place. */
  function DeleteIf(g: Gdbm, block: (Bytes, Bytes) -> Verdict): (r: Reply<()>)
    ensures g.frozen ==> r == Reply(g, Err(FrozenObject))
    ensures !g.frozen && IsClosed(g) ==> r == Reply(g, Err(ClosedFile))
    ensures r.obj.frozen == g.frozen
    ensures !g.frozen && g.file.Live? ==> var d := g.file.db;
      && r.obj.file.Live?
      && (r.out.Ok? || r.out == Err(BlockEscaped) ==>
            r.obj.file.db.entries == map k | k in d.entries && !Doomed(d, block, k) :: d.entries[k])
      && (r.out == Ok(()) <==> (d.writable || forall k :: !Doomed(d, block, k)) && !EscapesBefore(d, block, |d.order|))
      && (r.out == Err(BlockEscaped) <==> (d.writable || forall k :: !Doomed(d, block, k)) && EscapesBefore(d, block, |d.order|))
      && (r.out.Err? && r.out.error != BlockEscaped ==> r.out.error == GdbmError)
    ensures r.out.Err? && r.out.error != BlockEscaped ==> r.obj == g
  {
    match Writable(g)
    case Err(e) => Reply(g, Err(e))
    case Ok(d) =>
      var c := Collect(d, block);
      CollectPicksDoomed(d, block);
      match DeleteAll(d, c.rejects)
      case Err(e) => Reply(g, Err(e))
      case Ok(d') =>
        assert d'.entries == map k | k in d.entries && !Doomed(d, block, k) :: d.entries[k];
        Reply(WithDb(g, d'), if c.escaped then Err(BlockEscaped) else Ok(()))
  }

  /** `delete_if` and `reject` agree: for a block that never escapes, what
      survives the one is what the other returns. */
  lemma DeleteIfMatchesReject(g: Gdbm, block: (Bytes, Bytes) -> Verdict, pred: (Bytes, Bytes) -> bool)
    requires !g.frozen && g.file.Live? && g.file.db.writable
    requires forall k, v :: block(k, v) != Escapes && (block(k, v) == Truthy <==> pred(k, v))
    ensures DeleteIf(g, block).out == Ok(())
    ensures Lookup.ToHash(DeleteIf(g, block).obj) == Lookup.Reject(g, pred)
  {
    var d := g.file.db;
    NeverEscapes(d, block);
    DeleteIfKeeps(g, block);
    var kept := map k | k in d.entries && !Doomed(d, block, k) :: d.entries[k];
    var rejected := Lookup.Reject(g, pred).value;
    assert forall k :: k in kept <==> k in rejected;
    assert kept == rejected;
  }

  /** On a writable handle, a block that never leaves the walk early lets
      `delete_if` succeed, keeping exactly the keys it did not doom. */
  lemma DeleteIfKeeps(g: Gdbm, block: (Bytes, Bytes) -> Verdict)
    requires !g.frozen && g.file.Live? && g.file.db.writable
    requires !EscapesBefore(g.file.db, block, |g.file.db.order|)
    ensures var d := g.file.db; var r := DeleteIf(g, block);
      && r.out == Ok(())
      && r.obj.file.Live?
      && r.obj.file.db.entries == map k | k in d.entries && !Doomed(d, block, k) :: d.entries[k]
  {
  }

  lemma NeverEscapes(d: Db, block: (Bytes, Bytes) -> Verdict)
    requires forall k, v :: block(k, v) != Escapes
    ensures forall n :: 0 <= n <= |d.order| ==> !EscapesBefore(d, block, n)
    ensures forall k :: k in d.entries ==> (Doomed(d, block, k) <==> block(k, d.entries[k]) == Truthy)
  {
  }

  // ---- shift, reorganize, sync ----

  /** `shift`: remove the first entry of the walk and return it, or nil when
      the file is empty. */
  function Shift(g: Gdbm): (r: Reply<Option<Pair>>)
    ensures g.frozen ==> r == Reply(g, Err(FrozenObject))
    ensures !g.frozen && IsClosed(g) ==> r == Reply(g, Err(ClosedFile))
    ensures !g.frozen && g.file.Live? && g.file.db.entries == map[] ==> r == Reply(g, Ok(None))
    ensures !g.frozen && g.file.Live? && g.file.db.entries != map[] ==> (r.out.Ok? <==> g.file.db.writable)
    ensures !g.frozen && g.file.Live? && r.out.Err? ==> r.out.error == GdbmError
    ensures r.out.Err? ==> r.obj == g
    ensures r.out.Ok? && r.out.value.Some? ==> var d := g.file.db; var (k, v) := r.out.value.value;
      && g.file.Live? && |d.order| > 0 && k == d.order[0] && k in d.entries && v == d.entries[k]
      && r.obj.file.Live? && r.obj.file.db.entries == d.entries - {k}
    ensures r.obj.frozen == g.frozen
  {
    match Writable(g)
    case Err(e) => Reply(g, Err(e))
    case Ok(d) =>
      match Ffi.FirstKey(d)
      case None => Reply(g, Ok(None))
      case Some(k) =>
        var v := Ffi.Fetch(d, k).value;
        match Ffi.Delete(d, k)
        case Err(e) => Reply(g, Err(e))
        case Ok(d') => Reply(WithDb(g, d'), Ok(Some((k, v))))
  }

  /** Shifting a non-empty writable file hands back one entry and shortens it by one. */
  lemma ShiftShrinks(g: Gdbm)
    requires !g.frozen && g.file.Live? && g.file.db.writable && g.file.db.entries != map[]
    ensures Shift(g).out.Ok? && Shift(g).out.value.Some?
    ensures Lookup.Length(Shift(g).obj).value + 1 == Lookup.Length(g).value
  {
  }

  /** `reorganize`: guarded; the engine's compaction keeps every entry. */
  function Reorganize(g: Gdbm): (r: Reply<()>)
    ensures g.frozen ==> r.out == Err(FrozenObject)
    ensures !g.frozen && IsClosed(g) ==> r.out == Err(ClosedFile)
    ensures r.out.Ok? <==> !g.frozen && g.file.Live?
    ensures r.obj == g
  {
    match Writable(g)
    case Err(e) => Reply(g, Err(e))
    case Ok(_) => Reply(g, Ok(()))
  }

  /** `sync`: guarded; flushing to disk changes no entry. */
  function Sync(g: Gdbm): (r: Reply<()>)
    ensures g.frozen ==> r.out == Err(FrozenObject)
    ensures !g.frozen && IsClosed(g) ==> r.out == Err(ClosedFile)
    ensures r.out.Ok? <==> !g.frozen && g.file.Live?
    ensures r.obj == g
  {
    match Writable(g)
    case Err(e) => Reply(g, Err(e))
    case Ok(_) => Reply(g, Ok(()))
  }

  // ---- update and replace ----

  /** `update` as written: store each pair of `other` in turn. It never calls
      `modifiable?`, so a frozen object is written to; an empty `other` does
      not even consult the file. */
  function Update(g: Gdbm, other: seq<Pair>): (r: Reply<()>)
    decreases |other|
    ensures |other| == 0 ==> r == Reply(g, Ok(()))
    ensures |other| > 0 && IsClosed(g) ==> r == Reply(g, Err(ClosedFile))
    ensures |other| > 0 && g.file.Live? ==> (r.out.Ok? <==> g.file.db.writable)
    ensures g.file.Live? && r.out.Err? ==> r.out.error == GdbmError
    ensures r.out.Err? ==> r.obj == g
    ensures r.out.Ok? && g.file.Live? ==>
      r.obj.file.Live? && r.obj.file.db.entries == ToMapOnto(g.file.db.entries, other)
    ensures r.obj.frozen == g.frozen
  {
    if |other| == 0 then Reply(g, Ok(()))
    else
      match File(g)
      case Err(e) => Reply(g, Err(e))
      case Ok(d) =>
        match Ffi.Store(d, other[0].0, other[0].1)
        case Err(e) => Reply(g, Err(e))
        case Ok(d') =>
          assert [other[0]] + other[1..] == other;
          AccumulateFront(other[0], other[1..], d.entries, IntoHash);
          Update(WithDb(g, d'), other[1..])
  }

  /** A frozen, open, writable object whose contents `update` changes. */
  lemma UpdateWritesFrozen()
    ensures var g: Gdbm := GdbmObject(Live(RawDb(map[], [], true)), true);
      && g.frozen
      && Update(g, [([1], [2])]).out == Ok(())
      && Update(g, [([1], [2])]).obj.file.db.entries == map[[1] := [2]]
  {
    var g: Gdbm := GdbmObject(Live(RawDb(map[], [], true)), true);
    assert Accumulate([([1], [2])], map[], IntoHash) == map[[1] := [2]] by {
      assert [([1], [2])][..0] == [];
    }
  }

  /** `update` with the `modifiable?` guard every other mutator has. */
  function UpdateChecked(g: Gdbm, other: seq<Pair>): (r: Reply<()>)
    ensures g.frozen ==> r == Reply(g, Err(FrozenObject))
    ensures !g.frozen && |other| > 0 && IsClosed(g) ==> r == Reply(g, Err(ClosedFile))
    ensures !g.frozen && g.file.Live? && |other| > 0 ==> (r.out.Ok? <==> g.file.db.writable)
    ensures !g.frozen && g.file.Live? && r.out.Err? ==> r.out.error == GdbmError
    ensures r.out.Err? ==> r.obj == g
    ensures r.out.Ok? && g.file.Live? ==>
      r.obj.file.Live? && r.obj.file.db.entries == ToMapOnto(g.file.db.entries, other)
    ensures r.obj.frozen == g.frozen
  {
    if g.frozen then Reply(g, Err(FrozenObject)) else Update(g, other)
  }

  /** Merging the pairs of `other` into `m`, later pairs overriding earlier
      ones and both overriding `m`. */
  function ToMapOnto(m: map<Bytes, Bytes>, other: seq<Pair>): map<Bytes, Bytes> {
    Accumulate(other, m, IntoHash)
  }

  /** The merge keeps every key of `m` not mentioned in `other`, and binds
      every key of `other` to its last value there. */
  lemma {:induction false} MergeSemantics(m: map<Bytes, Bytes>, other: seq<Pair>)
    ensures var r := ToMapOnto(m, other);
      && (forall k :: k in r <==> k in m || k in ToMap(other))
      && (forall k :: k in ToMap(other) ==> r[k] == ToMap(other)[k])
      && (forall k :: k in m && k !in ToMap(other) ==> r[k] == m[k])
  {
    if |other| > 0 {
      var front := other[..|other| - 1];
      MergeSemantics(m, front);
    }
  }

  /** `clear`: guarded, then every entry is deleted. */
  method Clear(g: Gdbm) returns (r: Reply<()>)
    ensures g.frozen ==> r == Reply(g, Err(FrozenObject))
    ensures !g.frozen && IsClosed(g) ==> r == Reply(g, Err(ClosedFile))
    ensures !g.frozen && g.file.Live? ==> (r.out.Ok? <==> g.file.db.writable || g.file.db.entries == map[])
    ensures !g.frozen && g.file.Live? && r.out.Err? ==> r.out.error == GdbmError
    ensures r.out.Err? ==> r.obj == g
    ensures r.out.Ok? ==> r.obj.file.Live? && r.obj.file.db.entries == map[]
    ensures r.out.Ok? ==> g.file.Live? && r.obj.file.db.writable == g.file.db.writable
    ensures r.obj.frozen == g.frozen
  {
    match Writable(g)
    case Err(e) =>
      return Reply(g, Err(e));
    case Ok(d) =>
      var e := Ffi.Clear(d);
      if e.out.Err? {
        return Reply(g, Err(e.out.error));
      }
      return Reply(WithDb(g, e.db), Ok(()));
  }

  /** `replace`: `clear`, then `update` with `other`, here the pairs `other`
      yields, listed before the call; the contents become exactly the Hash
      those pairs describe. */
  method Replace(g: Gdbm, other: seq<Pair>) returns (r: Reply<()>)
    ensures g.frozen ==> r == Reply(g, Err(FrozenObject))
    ensures !g.frozen && IsClosed(g) ==> r == Reply(g, Err(ClosedFile))
    ensures !g.frozen && g.file.Live? ==>
      (r.out.Ok? <==> g.file.db.writable || (g.file.db.entries == map[] && |other| == 0))
    ensures !g.frozen && g.file.Live? && r.out.Err? ==> r.out.error == GdbmError
    ensures r.out.Ok? ==> r.obj.file.Live? && r.obj.file.db.entries == ToMap(other)
    ensures r.out.Ok? && g.file.Live? && other == Pairs(g.file.db) ==> r.obj.file.db.entries == g.file.db.entries
    ensures r.obj.frozen == g.frozen
  {
    var cleared := Clear(g);
    if cleared.out.Err? {
      return cleared;
    }
    r := Update(cleared.obj, other);
    if g.file.Live? {
      ToHashIsEntries(g.file.db);
    }
  }

  /** `replace(self)`: `update` walks this same file only after `clear` has
      emptied it, so a successful call leaves the file empty. */
  method ReplaceWithSelf(g: Gdbm) returns (r: Reply<()>)
    ensures g.frozen ==> r == Reply(g, Err(FrozenObject))
    ensures !g.frozen && IsClosed(g) ==> r == Reply(g, Err(ClosedFile))
    ensures !g.frozen && g.file.Live? ==> (r.out.Ok? <==> g.file.db.writable || g.file.db.entries == map[])
    ensures !g.frozen && g.file.Live? && r.out.Err? ==> r.out.error == GdbmError
    ensures r.out.Ok? ==> r.obj.file.Live? && r.obj.file.db.entries == map[]
    ensures r.obj.frozen == g.frozen
  {
    var cleared := Clear(g);
    if cleared.out.Err? {
      return cleared;
    }
    var d := cleared.obj.file.db;
    PairsComplete(d);
    r := Update(cleared.obj, Pairs(d));
  }

  /** A frozen object refuses `[]=` and keeps its contents, even though
      `update` would have written to it. */
  lemma FreezeRefusesPut(g: Gdbm, k: Bytes, v: Bytes)
    ensures Put(Freeze(g), k, v) == Reply(Freeze(g), Err(FrozenObject))
    ensures forall x :: Lookup.Get(Put(Freeze(g), k, v).obj, x) == Lookup.Get(g, x)
  {
  }
}
