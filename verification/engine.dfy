/** The native gdbm engine, kept abstract: a database is a map from keys to
    values together with the order in which `gdbm_firstkey`/`gdbm_nextkey`
    walk its keys. Bucket layout, hashing and the disk format are not modelled;
    a new key is placed at the end of the walk order. */
module Engine {
  import opened Base

  /** No key occurs twice. */
  ghost predicate Distinct(s: seq<Bytes>) {
    forall i, j :: 0 <= i < j < |s| ==> s[i] != s[j]
  }

  /** A database as the engine holds it. `writable` is false when the file was
      opened as a reader; the engine then refuses stores and deletes. */
  datatype RawDb = RawDb(entries: map<Bytes, Bytes>, order: seq<Bytes>, writable: bool)

  /** The walk order lists every stored key exactly once. */
  ghost predicate Wf(d: RawDb) {
    && Distinct(d.order)
    && (forall k :: k in d.entries <==> k in d.order)
  }

  type Db = d: RawDb | Wf(d) witness RawDb(map[], [], true)

  /** Position of `k` in `s`, or `|s|` when it does not occur. */
  function IndexOf(s: seq<Bytes>, k: Bytes): (i: nat)
    ensures i <= |s|
    ensures i < |s| ==> s[i] == k
    ensures forall j :: 0 <= j < i ==> s[j] != k
    ensures i == |s| <==> k !in s
  {
    if |s| == 0 then 0
    else if s[0] == k then 0
    else 1 + IndexOf(s[1..], k)
  }

  lemma IndexOfDistinct(s: seq<Bytes>, i: nat)
    requires Distinct(s) && i < |s|
    ensures IndexOf(s, s[i]) == i
  {
  }

  /** Removing the element at `i` keeps the others, in their order. */
  function RemoveAt(s: seq<Bytes>, i: nat): (t: seq<Bytes>)
    requires i < |s|
    requires Distinct(s)
    ensures |t| == |s| - 1
    ensures forall j :: 0 <= j < i ==> t[j] == s[j]
    ensures forall j :: i <= j < |t| ==> t[j] == s[j + 1]
    ensures Distinct(t)
    ensures forall x :: x in t <==> x in s && x != s[i]
  {
    var t := s[..i] + s[i + 1..];
    assert forall x :: x in t ==> exists j :: 0 <= j < |t| && t[j] == x;
    assert forall x :: x in s && x != s[i] ==> exists j :: 0 <= j < |s| && j != i && s[j] == x;
    assert forall j :: 0 <= j < |s| && j != i ==> s[j] == t[if j < i then j else j - 1];
    t
  }

  /** A distinct walk order has exactly as many positions as the map has keys. */
  lemma {:induction false} CardinalityAgrees(d: Db)
    ensures |d.entries| == |d.order|
  {
    DistinctSetSize(d.order);
    assert d.entries.Keys == set x | x in d.order;
  }

  lemma {:induction false} DistinctSetSize(s: seq<Bytes>)
    requires Distinct(s)
    ensures |set x | x in s| == |s|
  {
    if |s| > 0 {
      var init := s[..|s| - 1];
      DistinctSetSize(init);
      assert (set x | x in s) == (set x | x in init) + {s[|s| - 1]};
      assert s[|s| - 1] !in init;
    }
  }

  // ---- primitives of the native library (gdbm_firstkey, gdbm_nextkey, ...) ----

  /** `gdbm_firstkey`: the start of the walk, absent exactly when the database is empty. */
  function RawFirstKey(d: Db): (r: Option<Bytes>)
    ensures r.None? <==> d.entries == map[]
    ensures r.Some? ==> r.value in d.entries && IndexOf(d.order, r.value) == 0
  {
    if |d.order| == 0 then
      assert d.entries.Keys == {};
      None
    else
      assert d.order[0] in d.entries;
      Some(d.order[0])
  }

  /** `gdbm_nextkey`: the key after `k` in the walk; absent at the end or for an unknown key. */
  function RawNextKey(d: Db, k: Bytes): (r: Option<Bytes>)
    ensures r.Some? ==> r.value in d.entries && r.value != k
    ensures r.Some? ==> IndexOf(d.order, r.value) == IndexOf(d.order, k) + 1
    ensures k in d.entries && IndexOf(d.order, k) + 1 < |d.entries| ==> r.Some?
  {
    CardinalityAgrees(d);
    var i := IndexOf(d.order, k);
    if i + 1 < |d.order| then
      IndexOfDistinct(d.order, i + 1);
      Some(d.order[i + 1])
    else None
  }

  /** The walk starts at the first position of the order ... */
  lemma FirstKeyAt(d: Db)
    ensures RawFirstKey(d) == if |d.order| > 0 then Some(d.order[0]) else None
  {
  }

  /** ... and `gdbm_nextkey` moves from each position to the next. */
  lemma NextKeyAt(d: Db, i: nat)
    requires i < |d.order|
    ensures RawNextKey(d, d.order[i]) == if i + 1 < |d.order| then Some(d.order[i + 1]) else None
  {
    IndexOfDistinct(d.order, i);
  }

  /** `gdbm_fetch`: the stored value, or nothing. */
  function RawFetch(d: Db, k: Bytes): (r: Option<Bytes>)
    ensures r.Some? <==> k in d.entries
    ensures r.Some? ==> r.value == d.entries[k]
  {
    if k in d.entries then Some(d.entries[k]) else None
  }

  /** `gdbm_exists`, already compared against zero. */
  function RawExists(d: Db, k: Bytes): (r: bool)
    ensures r <==> RawFetch(d, k).Some?
  {
    k in d.entries
  }

  /** The database and the status code a primitive returns. */
  datatype Status = Status(db: Db, code: int)

  /** `gdbm_store` with GDBM_REPLACE: status 0 and the binding replaced, or -1 and nothing changed. */
  function RawStore(d: Db, k: Bytes, v: Bytes): (r: Status)
    ensures r.code == 0 <==> d.writable
    ensures r.code != 0 ==> r.db == d
    ensures r.code == 0 ==> r.db.entries == d.entries[k := v] && r.db.writable
    ensures k in d.entries ==> r.db.order == d.order
    ensures k !in d.entries && r.code == 0 ==> r.db.order == d.order + [k]
  {
    if !d.writable then Status(d, -1)
    else if k in d.entries then Status(d.(entries := d.entries[k := v]), 0)
    else
      var d' := RawDb(d.entries[k := v], d.order + [k], true);
      assert forall x :: x in d'.order <==> x in d.order || x == k;
      Status(d', 0)
  }

  /** `gdbm_delete`: status 0 and the key gone, or -1 (absent key, or a reader) and nothing changed. */
  function RawDelete(d: Db, k: Bytes): (r: Status)
    ensures r.code == 0 <==> d.writable && k in d.entries
    ensures r.code != 0 ==> r.db == d
    ensures r.code == 0 ==> r.db.entries == d.entries - {k} && r.db.writable
    ensures r.code == 0 ==> |r.db.order| == |d.order| - 1
  {
    if !d.writable || k !in d.entries then Status(d, -1)
    else
      var i := IndexOf(d.order, k);
      var d' := RawDb(d.entries - {k}, RemoveAt(d.order, i), true);
      Status(d', 0)
  }

  /** What one complete walk yields: each key in walk order with its value. */
  function Pairs(d: Db): (ps: seq<Pair>)
    ensures |ps| == |d.order|
  {
    seq(|d.order|, i requires 0 <= i < |d.order| => (d.order[i], d.entries[d.order[i]]))
  }

  /** One full walk yields every stored entry exactly once, and nothing else. */
  lemma PairsComplete(d: Db)
    ensures forall i, j :: 0 <= i < j < |Pairs(d)| ==> Pairs(d)[i].0 != Pairs(d)[j].0
    ensures forall k :: k in d.entries <==> exists i :: 0 <= i < |Pairs(d)| && Pairs(d)[i].0 == k
    ensures forall i :: 0 <= i < |Pairs(d)| ==> Pairs(d)[i].0 in d.entries && Pairs(d)[i].1 == d.entries[Pairs(d)[i].0]
  {
    var ps := Pairs(d);
    forall k | k in d.entries
      ensures exists i :: 0 <= i < |ps| && ps[i].0 == k
    {
      var i := IndexOf(d.order, k);
      assert ps[i].0 == k;
    }
  }
}
