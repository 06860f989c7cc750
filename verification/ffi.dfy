/** The Ruby-side helpers of `GDBM_FFI` (lib/gdbm.rb:101-179): thin wrappers
    that turn engine status codes into `GDBMError`, and the cursor walks that
    every traversal of `GDBM` is built from. */
module Ffi {
  import opened Base
  import opened Engine

  /** The database after a helper, and what the helper returned or raised. */
  datatype Effect = Effect(db: Db, out: Result<()>)

  /** `GDBM_FFI.store`: store with REPLACE; a nonzero status raises GDBMError. */
  function Store(d: Db, k: Bytes, v: Bytes): (r: Result<Db>)
    ensures r.Ok? <==> d.writable
    ensures r.Err? ==> r.error == GdbmError
    ensures r.Ok? ==> RawFetch(r.value, k) == Some(v)
    ensures r.Ok? ==> forall x :: x != k ==> RawFetch(r.value, x) == RawFetch(d, x)
    ensures r.Ok? ==> r.value.writable
  {
    var s := RawStore(d, k, v);
    if s.code != 0 then Err(GdbmError) else Ok(s.db)
  }

  /** `GDBM_FFI.fetch`: the stored value, `nil` when there is none. */
  function Fetch(d: Db, k: Bytes): (r: Option<Bytes>)
    ensures r.Some? <==> RawExists(d, k)
    ensures r.Some? ==> r.value == d.entries[k]
  {
    RawFetch(d, k)
  }

  /** `GDBM_FFI.first_key`. */
  function FirstKey(d: Db): (r: Option<Bytes>)
    ensures r.None? <==> d.entries == map[]
    ensures r.Some? ==> r.value in d.entries && |d.order| > 0 && r.value == d.order[0]
  {
    RawFirstKey(d)
  }

  /** `GDBM_FFI.exists?`. */
  function Exists(d: Db, k: Bytes): (r: bool)
    ensures r <==> k in d.entries
  {
    RawExists(d, k)
  }

  /** `GDBM_FFI.delete`: an absent key is left alone without touching the engine;
      otherwise a nonzero status of the raw delete raises GDBMError. */
  function Delete(d: Db, k: Bytes): (r: Result<Db>)
    ensures k !in d.entries ==> r == Ok(d)
    ensures r.Err? <==> k in d.entries && !d.writable
    ensures r.Err? ==> r.error == GdbmError
    ensures r.Ok? ==> r.value.entries == d.entries - {k}
    ensures r.Ok? ==> r.value.writable == d.writable
  {
    if !Exists(d, k) then Ok(d)
    else
      var s := RawDelete(d, k);
      if s.code != 0 then Err(GdbmError) else Ok(s.db)
  }

  /** `GDBM_FFI.each_pair`: first key, then fetch and advance with `nextkey`
      until the cursor runs out; the yields are collected in `visited`. */
  method EachPair(d: Db) returns (visited: seq<Pair>)
    ensures |visited| == |d.entries|
    ensures forall i :: 0 <= i < |visited| ==> visited[i].0 in d.entries && visited[i].1 == d.entries[visited[i].0]
    ensures forall i :: 0 <= i < |visited| ==> IndexOf(d.order, visited[i].0) == i
    ensures visited == Pairs(d)
  {
    visited := [];
    var current := RawFirstKey(d);
    FirstKeyAt(d);
    ghost var i := 0;
    while current.Some?
      invariant 0 <= i <= |d.order|
      invariant |visited| == i
      invariant forall j :: 0 <= j < i ==> visited[j] == Pairs(d)[j]
      invariant current == if i < |d.order| then Some(d.order[i]) else None
      decreases |d.order| - i
    {
      var value := RawFetch(d, current.value);
      visited := visited + [(current.value, value.value)];
      NextKeyAt(d, i);
      current := RawNextKey(d, current.value);
      i := i + 1;
    }
    WalkDone(d, visited);
  }

  /** What a finished `each_pair` walk has collected is one whole walk. */
  lemma WalkDone(d: Db, visited: seq<Pair>)
    requires |visited| == |d.order|
    requires forall j :: 0 <= j < |visited| ==> visited[j] == Pairs(d)[j]
    ensures |visited| == |d.entries|
    ensures forall i :: 0 <= i < |visited| ==> visited[i].0 in d.entries && visited[i].1 == d.entries[visited[i].0]
    ensures forall i :: 0 <= i < |visited| ==> IndexOf(d.order, visited[i].0) == i
    ensures visited == Pairs(d)
  {
    CardinalityAgrees(d);
    forall j | 0 <= j < |visited|
      ensures IndexOf(d.order, visited[j].0) == j
    {
      IndexOfDistinct(d.order, j);
    }
  }

  /** `GDBM_FFI.each_key`: the keys in walk order, each once. */
  method EachKey(d: Db) returns (visited: seq<Bytes>)
    ensures visited == d.order
    ensures |visited| == |d.entries|
  {
    visited := [];
    var current := RawFirstKey(d);
    FirstKeyAt(d);
    ghost var i := 0;
    while current.Some?
      invariant 0 <= i <= |d.order|
      invariant visited == d.order[..i]
      invariant current == if i < |d.order| then Some(d.order[i]) else None
      decreases |d.order| - i
    {
      visited := visited + [current.value];
      NextKeyAt(d, i);
      current := RawNextKey(d, current.value);
      i := i + 1;
    }
    CardinalityAgrees(d);
  }

  /** `GDBM_FFI.each_value`: the value of each key in walk order. */
  method EachValue(d: Db) returns (visited: seq<Bytes>)
    ensures |visited| == |d.order| == |d.entries|
    ensures forall i :: 0 <= i < |visited| ==> visited[i] == Pairs(d)[i].1
    ensures forall v :: v in visited <==> v in d.entries.Values
  {
    visited := [];
    var current := RawFirstKey(d);
    FirstKeyAt(d);
    ghost var i := 0;
    while current.Some?
      invariant 0 <= i <= |d.order|
      invariant |visited| == i
      invariant forall j :: 0 <= j < i ==> visited[j] == Pairs(d)[j].1
      invariant current == if i < |d.order| then Some(d.order[i]) else None
      decreases |d.order| - i
    {
      var value := RawFetch(d, current.value);
      visited := visited + [value.value];
      NextKeyAt(d, i);
      current := RawNextKey(d, current.value);
      i := i + 1;
    }
    ValuesDone(d, visited);
  }

  /** What a finished `each_value` walk has collected covers every stored value. */
  lemma ValuesDone(d: Db, visited: seq<Bytes>)
    requires |visited| == |d.order|
    requires forall j :: 0 <= j < |visited| ==> visited[j] == Pairs(d)[j].1
    ensures |visited| == |d.entries|
    ensures forall v :: v in visited <==> v in d.entries.Values
  {
    CardinalityAgrees(d);
    forall v | v in d.entries.Values
      ensures v in visited
    {
      var k :| k in d.entries && d.entries[k] == v;
      assert visited[IndexOf(d.order, k)] == v;
    }
  }

  /** `GDBM_FFI.clear`: take the first key, then walk, reading the next key
      before deleting the current one, and start over until `firstkey` is nil.
      A failing delete raises GDBMError with the database as it stands. */
  method Clear(d: Db) returns (r: Effect)
    ensures r.out.Ok? <==> d.writable || d.entries == map[]
    ensures r.out.Ok? ==> r.db.entries == map[]
    ensures r.out.Err? ==> r.out.error == GdbmError && r.db == d
    ensures r.db.writable == d.writable
  {
    var db := d;
    var first := RawFirstKey(db);
    while first.Some?
      invariant db.writable == d.writable
      invariant !d.writable ==> db == d
      invariant first == RawFirstKey(db)
      decreases |db.order|
    {
      ghost var size := |db.order|;
      var key := first;
      while key.Some?
        invariant db.writable == d.writable
        invariant !d.writable ==> db == d
        invariant key.Some? ==> key.value in db.entries
        invariant |db.order| < size || (|db.order| == size && key.Some?)
        decreases |db.order|
      {
        var next := RawNextKey(db, key.value);
        var s := RawDelete(db, key.value);
        if s.code != 0 {
          return Effect(db, Err(GdbmError));
        }
        db := s.db;
        key := next;
      }
      first := RawFirstKey(db);
    }
    return Effect(db, Ok(()));
  }
}
