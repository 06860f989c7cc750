/** The `GDBM` object itself: the engine handle it holds in `@file`, Ruby's
    frozen flag, and the guards `file` and `modifiable?` that every dictionary
    method passes through (lib/gdbm.rb:299-310, 456-458, 582-600). */
module Lifecycle {
  import opened Base
  import opened Engine

  /** What `@file` holds: nil, a live engine handle, or a handle the engine has
      already closed. The last arises only from `close` on a frozen object,
      which cannot reset `@file` to nil. */
  datatype FileRef = Null | Live(db: Db) | Released

  datatype GdbmObject = GdbmObject(file: FileRef, frozen: bool)

  /** Freezing cannot be undone, and only a frozen object keeps a released handle. */
  type Gdbm = g: GdbmObject | g.file.Released? ==> g.frozen witness GdbmObject(Null, false)

  /** The object after a method, and what the method returned or raised. */
  datatype Reply<+T> = Reply(obj: Gdbm, out: Result<T>)

  /** `closed?`: only a nil (or null) `@file` counts as closed. */
  predicate IsClosed(g: Gdbm) {
    g.file.Null?
  }

  /** `nil?`, which Ruby objects normally answer false: here it asks the same
      question as `closed?`. */
  predicate IsNil(g: Gdbm): (r: bool)
    ensures r <==> IsClosed(g)
  {
    g.file.Null?
  }

  /** The private `file` accessor: the live handle, or "closed GDBM file" when
      `@file` is nil. A released handle is handed on to the engine, whose
      behaviour on it is undefined; the model reports that as `UseAfterClose`. */
  function File(g: Gdbm): (r: Result<Db>)
    ensures r.Ok? <==> !IsClosed(g) && !g.file.Released?
    ensures IsClosed(g) ==> r == Err(ClosedFile)
    ensures r.Ok? ==> g.file == Live(r.value)
  {
    match g.file
    case Null => Err(ClosedFile)
    case Live(db) => Ok(db)
    case Released => Err(UseAfterClose)
  }

  /** `modifiable?` followed by `file`, the prologue of every guarded mutator:
      a frozen object is refused before the handle is even looked at. */
  function Writable(g: Gdbm): (r: Result<Db>)
    ensures g.frozen ==> r == Err(FrozenObject)
    ensures !g.frozen ==> r == File(g)
    ensures r.Ok? ==> !g.frozen && g.file == Live(r.value)
  {
    if g.frozen then Err(FrozenObject) else File(g)
  }

  /** The object with a new engine state behind its handle. */
  function WithDb(g: Gdbm, d: Db): (h: Gdbm)
    requires g.file.Live?
    ensures h.file == Live(d) && h.frozen == g.frozen
  {
    g.(file := Live(d))
  }

  /** `close`: a closed object raises; otherwise the engine handle is closed,
      and `@file` is reset to nil unless the object is frozen. */
  function Close(g: Gdbm): (r: Reply<()>)
    ensures IsClosed(g) ==> r == Reply(g, Err(ClosedFile))
    ensures g.file.Live? ==> r.out == Ok(()) && (IsClosed(r.obj) <==> !g.frozen)
    ensures r.obj.frozen == g.frozen
    ensures !r.obj.file.Live?
  {
    if IsClosed(g) then Reply(g, Err(ClosedFile))
    else if g.file.Released? then Reply(g, Err(UseAfterClose))
    else if g.frozen then Reply(g.(file := Released), Ok(()))
    else Reply(g.(file := Null), Ok(()))
  }

  /** Ruby's `freeze`: the flag is set and never cleared. */
  function Freeze(g: Gdbm): (h: Gdbm)
    ensures h.frozen && h.file == g.file
  {
    g.(frozen := true)
  }

  /** `closed?` is true exactly when the `file` guard raises "closed GDBM
      file"; a released handle is not closed, and a successful `close` makes
      the object closed only when it is not frozen. */
  lemma ClosedIffFileRaises(g: Gdbm)
    ensures IsClosed(g) <==> File(g) == Err(ClosedFile)
    ensures g.file.Released? ==> !IsClosed(g)
    ensures Close(g).out.Ok? ==> (IsClosed(Close(g).obj) <==> !g.frozen)
  {
  }

  /** Freezing a live object and then closing it leaves a handle that is not
      closed, but on which every further use fails. */
  lemma FrozenCloseKeepsHandle(g: Gdbm)
    requires g.file.Live?
    ensures var c := Close(Freeze(g)).obj;
      c.frozen && !IsClosed(c) && File(c) == Err(UseAfterClose)
  {
  }

  /** Closing twice always fails the second time: with "closed GDBM file" for
      an ordinary object, and on the released handle for a frozen one. */
  lemma CloseTwiceFails(g: Gdbm)
    requires g.file.Live?
    ensures Close(g).out.Ok?
    ensures !g.frozen ==> Close(Close(g).obj).out == Err(ClosedFile)
    ensures g.frozen ==> Close(Close(g).obj).out == Err(UseAfterClose)
    ensures Close(Close(g).obj).obj == Close(g).obj
  {
  }
}
