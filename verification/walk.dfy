/** Single-traversal accumulation. Every read-only transform of `GDBM`
    (`to_hash`, `invert`, `keys`, `values`, `to_a`, `length`, `reject`,
    `select`) runs one `each_pair`/`each_key`/`each_value` walk and folds each
    yielded pair into an in-memory result; `Accumulate` is that fold, and the
    step functions below are the bodies of the Ruby blocks. */
module Walk {
  import opened Base
  import opened Engine

  /** Fold `step` over `ps` from the first pair to the last. */
  function Accumulate<A>(ps: seq<Pair>, init: A, step: (A, Pair) -> A): A
    decreases |ps|
  {
    if |ps| == 0 then init
    else step(Accumulate(ps[..|ps| - 1], init, step), ps[|ps| - 1])
  }

  /** `result[k] = v` */
  function IntoHash(m: map<Bytes, Bytes>, p: Pair): map<Bytes, Bytes> { m[p.0 := p.1] }

  /** `result[v] = k` */
  function IntoInverse(m: map<Bytes, Bytes>, p: Pair): map<Bytes, Bytes> { m[p.1 := p.0] }

  /** `keys << k` */
  function IntoKeys(s: seq<Bytes>, p: Pair): seq<Bytes> { s + [p.0] }

  /** `values << v` */
  function IntoValues(s: seq<Bytes>, p: Pair): seq<Bytes> { s + [p.1] }

  /** `result << [k, v]` */
  function IntoList(s: seq<Pair>, p: Pair): seq<Pair> { s + [p] }

  /** `len = len + 1` */
  function IntoCount(n: nat, p: Pair): nat { n + 1 }

  /** The Hash that the pairs of `ps` build when stored one after another. */
  function ToMap(ps: seq<Pair>): map<Bytes, Bytes> {
    Accumulate(ps, map[], IntoHash)
  }

  lemma AccumulateSnoc<A>(ps: seq<Pair>, p: Pair, init: A, step: (A, Pair) -> A)
    ensures Accumulate(ps + [p], init, step) == step(Accumulate(ps, init, step), p)
  {
    assert (ps + [p])[..|ps|] == ps;
  }

  /** The fold can also be read front first: the first pair is folded into the
      start value. This is how `update` consumes its argument. */
  lemma {:induction false} AccumulateFront<A>(p: Pair, rest: seq<Pair>, init: A, step: (A, Pair) -> A)
    ensures Accumulate([p] + rest, init, step) == Accumulate(rest, step(init, p), step)
    decreases |rest|
  {
    if |rest| == 0 {
      assert [p] + rest == [p];
      assert [p][..0] == [];
    } else {
      var last := rest[|rest| - 1];
      var front := rest[..|rest| - 1];
      assert rest == front + [last];
      assert [p] + rest == ([p] + front) + [last];
      AccumulateSnoc([p] + front, last, init, step);
      AccumulateFront(p, front, init, step);
      AccumulateSnoc(front, last, step(init, p), step);
    }
  }

  // ---- what each accumulator yields over one complete walk ----

  /** `m` holds exactly the first `n` walked keys, each with its stored value. */
  ghost predicate HashOf(d: Db, n: nat, m: map<Bytes, Bytes>)
    requires n <= |d.order|
  {
    && (forall k :: k in m <==> k in d.order[..n])
    && (forall k :: k in m ==> m[k] == d.entries[k])
  }

  lemma {:induction false} HashPrefix(d: Db, n: nat)
    requires n <= |d.order|
    ensures HashOf(d, n, Accumulate(Pairs(d)[..n], map[], IntoHash))
  {
    if n > 0 {
      HashPrefix(d, n - 1);
      var ps := Pairs(d);
      assert ps[..n] == ps[..n - 1] + [ps[n - 1]];
      AccumulateSnoc(ps[..n - 1], ps[n - 1], map[], IntoHash);
      HashStep(d, n, Accumulate(ps[..n - 1], map[], IntoHash));
    }
  }

  lemma HashStep(d: Db, n: nat, prev: map<Bytes, Bytes>)
    requires 0 < n <= |d.order|
    requires HashOf(d, n - 1, prev)
    ensures HashOf(d, n, IntoHash(prev, Pairs(d)[n - 1]))
  {
    TakeOneMore(d, n);
  }

  /** The first `n` keys of the walk are the first `n - 1` and one more. */
  lemma TakeOneMore(d: Db, n: nat)
    requires 0 < n <= |d.order|
    ensures forall k :: k in d.order[..n] <==> k in d.order[..n - 1] || k == d.order[n - 1]
  {
    assert d.order[..n] == d.order[..n - 1] + [d.order[n - 1]];
  }

  /** `to_hash` reproduces the database's contents exactly. */
  lemma ToHashIsEntries(d: Db)
    ensures ToMap(Pairs(d)) == d.entries
  {
    HashPrefix(d, |d.order|);
    assert Pairs(d)[..|d.order|] == Pairs(d);
    assert d.order[..|d.order|] == d.order;
    var m := ToMap(Pairs(d));
    assert m.Keys == d.entries.Keys;
  }

  /** What the inverting fold holds after the first `n` pairs of the walk. */
  ghost predicate InvertedSoFar(d: Db, n: nat, r: map<Bytes, Bytes>)
    requires n <= |d.order|
  {
    && (forall i :: 0 <= i < n ==> d.entries[d.order[i]] in r)
    && (forall v :: v in r ==> r[v] in d.entries && d.entries[r[v]] == v && IndexOf(d.order, r[v]) < n)
    && (forall i :: 0 <= i < n ==> i <= IndexOf(d.order, r[d.entries[d.order[i]]]))
  }

  lemma {:induction false} InversePrefix(d: Db, n: nat)
    requires n <= |d.order|
    ensures InvertedSoFar(d, n, Accumulate(Pairs(d)[..n], map[], IntoInverse))
  {
    if n > 0 {
      InversePrefix(d, n - 1);
      InverseSnoc(d, n);
      IndexOfDistinct(d.order, n - 1);
      InverseStep(d, n, Accumulate(Pairs(d)[..n - 1], map[], IntoInverse), Accumulate(Pairs(d)[..n], map[], IntoInverse));
    } else {
      assert Pairs(d)[..0] == [];
    }
  }

  lemma InverseSnoc(d: Db, n: nat)
    requires 0 < n <= |d.order|
    ensures Accumulate(Pairs(d)[..n], map[], IntoInverse)
         == Accumulate(Pairs(d)[..n - 1], map[], IntoInverse)[d.entries[d.order[n - 1]] := d.order[n - 1]]
  {
    var ps := Pairs(d);
    assert ps[..n] == ps[..n - 1] + [ps[n - 1]];
    AccumulateSnoc(ps[..n - 1], ps[n - 1], map[], IntoInverse);
  }

  lemma InverseStep(d: Db, n: nat, prev: map<Bytes, Bytes>, r: map<Bytes, Bytes>)
    requires 0 < n <= |d.order|
    requires IndexOf(d.order, d.order[n - 1]) == n - 1
    requires r == prev[d.entries[d.order[n - 1]] := d.order[n - 1]]
    requires InvertedSoFar(d, n - 1, prev)
    ensures InvertedSoFar(d, n, r)
  {
    InverseStepCovers(d, n, prev, r);
    InverseStepSound(d, n, prev, r);
    InverseStepLatest(d, n, prev, r);
  }

  lemma InverseStepCovers(d: Db, n: nat, prev: map<Bytes, Bytes>, r: map<Bytes, Bytes>)
    requires 0 < n <= |d.order|
    requires r == prev[d.entries[d.order[n - 1]] := d.order[n - 1]]
    requires forall i :: 0 <= i < n - 1 ==> d.entries[d.order[i]] in prev
    ensures forall i :: 0 <= i < n ==> d.entries[d.order[i]] in r
  {
  }

  lemma InverseStepSound(d: Db, n: nat, prev: map<Bytes, Bytes>, r: map<Bytes, Bytes>)
    requires 0 < n <= |d.order|
    requires IndexOf(d.order, d.order[n - 1]) == n - 1
    requires r == prev[d.entries[d.order[n - 1]] := d.order[n - 1]]
    requires forall v :: v in prev ==> prev[v] in d.entries && d.entries[prev[v]] == v && IndexOf(d.order, prev[v]) < n - 1
    ensures forall v :: v in r ==> r[v] in d.entries && d.entries[r[v]] == v && IndexOf(d.order, r[v]) < n
  {
  }

  lemma InverseStepLatest(d: Db, n: nat, prev: map<Bytes, Bytes>, r: map<Bytes, Bytes>)
    requires 0 < n <= |d.order|
    requires IndexOf(d.order, d.order[n - 1]) == n - 1
    requires r == prev[d.entries[d.order[n - 1]] := d.order[n - 1]]
    requires forall i :: 0 <= i < n - 1 ==> d.entries[d.order[i]] in prev
    requires forall i :: 0 <= i < n - 1 ==> i <= IndexOf(d.order, prev[d.entries[d.order[i]]])
    ensures forall i :: 0 <= i < n ==> i <= IndexOf(d.order, r[d.entries[d.order[i]]])
  {
    var k := d.order[n - 1];
    forall i | 0 <= i < n
      ensures i <= IndexOf(d.order, r[d.entries[d.order[i]]])
    {
      var v := d.entries[d.order[i]];
      if v == d.entries[k] {
        assert r[v] == k;
      } else {
        assert r[v] == prev[v];
      }
    }
  }

  /** `invert` maps every stored value back to a key that holds it, and when
      several keys hold the same value the one walked last wins. */
  lemma InvertLastWins(d: Db)
    ensures var r := Accumulate(Pairs(d), map[], IntoInverse);
      && r.Keys == d.entries.Values
      && (forall v :: v in r ==> r[v] in d.entries && d.entries[r[v]] == v)
      && (forall k :: k in d.entries ==> IndexOf(d.order, k) <= IndexOf(d.order, r[d.entries[k]]))
  {
    InversePrefix(d, |d.order|);
    assert Pairs(d)[..|d.order|] == Pairs(d);
    var r := Accumulate(Pairs(d), map[], IntoInverse);
    InvertedCoversWalk(d, r);
    InvertedKeys(d, r);
  }

  lemma InvertedCoversWalk(d: Db, r: map<Bytes, Bytes>)
    requires InvertedSoFar(d, |d.order|, r)
    ensures forall k :: k in d.entries ==> d.entries[k] in r && IndexOf(d.order, k) <= IndexOf(d.order, r[d.entries[k]])
  {
    forall k | k in d.entries
      ensures d.entries[k] in r && IndexOf(d.order, k) <= IndexOf(d.order, r[d.entries[k]])
    {
      var i := IndexOf(d.order, k);
      assert d.order[i] == k;
    }
  }

  lemma InvertedKeys(d: Db, r: map<Bytes, Bytes>)
    requires InvertedSoFar(d, |d.order|, r)
    requires forall k :: k in d.entries ==> d.entries[k] in r
    ensures r.Keys == d.entries.Values
  {
    forall v | v in d.entries.Values
      ensures v in r.Keys
    {
      var k :| k in d.entries && d.entries[k] == v;
    }
    forall v | v in r.Keys
      ensures v in d.entries.Values
    {
      assert r[v] in d.entries && d.entries[r[v]] == v;
    }
  }

  lemma {:induction false} KeysPrefix(d: Db, n: nat)
    requires n <= |d.order|
    ensures Accumulate(Pairs(d)[..n], [], IntoKeys) == d.order[..n]
  {
    if n > 0 {
      KeysPrefix(d, n - 1);
      var ps := Pairs(d);
      assert ps[..n] == ps[..n - 1] + [ps[n - 1]];
      AccumulateSnoc(ps[..n - 1], ps[n - 1], [], IntoKeys);
      assert d.order[..n] == d.order[..n - 1] + [d.order[n - 1]];
    }
  }

  lemma {:induction false} ValuesPrefix(d: Db, n: nat)
    requires n <= |d.order|
    ensures var vs := Accumulate(Pairs(d)[..n], [], IntoValues);
      |vs| == n && forall i :: 0 <= i < n ==> vs[i] == d.entries[d.order[i]]
  {
    if n > 0 {
      ValuesPrefix(d, n - 1);
      var ps := Pairs(d);
      assert ps[..n] == ps[..n - 1] + [ps[n - 1]];
      AccumulateSnoc(ps[..n - 1], ps[n - 1], [], IntoValues);
    }
  }

  lemma {:induction false} PairsPrefix(d: Db, n: nat)
    requires n <= |d.order|
    ensures Accumulate(Pairs(d)[..n], [], IntoList) == Pairs(d)[..n]
  {
    if n > 0 {
      PairsPrefix(d, n - 1);
      var ps := Pairs(d);
      assert ps[..n] == ps[..n - 1] + [ps[n - 1]];
      AccumulateSnoc(ps[..n - 1], ps[n - 1], [], IntoList);
    }
  }

  /** `keys`, `values` and `to_a` list one element per entry, in walk order. */
  lemma ListsFollowWalk(d: Db)
    ensures Accumulate(Pairs(d), [], IntoKeys) == d.order
    ensures var vs := Accumulate(Pairs(d), [], IntoValues);
      |vs| == |d.order| && forall i :: 0 <= i < |vs| ==> vs[i] == d.entries[d.order[i]]
    ensures Accumulate(Pairs(d), [], IntoList) == Pairs(d)
  {
    assert Pairs(d)[..|d.order|] == Pairs(d);
    assert d.order[..|d.order|] == d.order;
    KeysPrefix(d, |d.order|);
    ValuesPrefix(d, |d.order|);
    PairsPrefix(d, |d.order|);
  }

  lemma {:induction false} CountPrefix(d: Db, n: nat)
    requires n <= |d.order|
    ensures Accumulate(Pairs(d)[..n], 0, IntoCount) == n
  {
    if n > 0 {
      CountPrefix(d, n - 1);
      assert Pairs(d)[..n][..n - 1] == Pairs(d)[..n - 1];
    }
  }

  /** `length` counts every entry once. */
  lemma LengthCountsEntries(d: Db)
    ensures Accumulate(Pairs(d), 0, IntoCount) == |d.entries|
  {
    CountPrefix(d, |d.order|);
    assert Pairs(d)[..|d.order|] == Pairs(d);
    CardinalityAgrees(d);
  }

  /** `result[k] = v if not yield(k, v)` */
  function RejectStep(pred: (Bytes, Bytes) -> bool): (map<Bytes, Bytes>, Pair) -> map<Bytes, Bytes>
  {
    (m: map<Bytes, Bytes>, p: Pair) => if pred(p.0, p.1) then m else m[p.0 := p.1]
  }

  /** `result << [k, v] if yield(k, v)` */
  function SelectStep(pred: (Bytes, Bytes) -> bool): (seq<Pair>, Pair) -> seq<Pair>
  {
    (s: seq<Pair>, p: Pair) => if pred(p.0, p.1) then s + [p] else s
  }

  /** `m` holds exactly the first `n` walked entries the block turns down. */
  ghost predicate RejectedOf(d: Db, n: nat, pred: (Bytes, Bytes) -> bool, m: map<Bytes, Bytes>)
    requires n <= |d.order|
  {
    && (forall k :: k in m <==> k in d.order[..n] && !pred(k, d.entries[k]))
    && (forall k :: k in m ==> m[k] == d.entries[k])
  }

  lemma {:induction false} RejectPrefix(d: Db, n: nat, pred: (Bytes, Bytes) -> bool)
    requires n <= |d.order|
    ensures RejectedOf(d, n, pred, Accumulate(Pairs(d)[..n], map[], RejectStep(pred)))
  {
    if n > 0 {
      RejectPrefix(d, n - 1, pred);
      var ps := Pairs(d);
      assert ps[..n] == ps[..n - 1] + [ps[n - 1]];
      AccumulateSnoc(ps[..n - 1], ps[n - 1], map[], RejectStep(pred));
      RejectOne(d, n, pred, Accumulate(ps[..n - 1], map[], RejectStep(pred)));
    }
  }

  lemma RejectOne(d: Db, n: nat, pred: (Bytes, Bytes) -> bool, prev: map<Bytes, Bytes>)
    requires 0 < n <= |d.order|
    requires RejectedOf(d, n - 1, pred, prev)
    ensures RejectedOf(d, n, pred, RejectStep(pred)(prev, Pairs(d)[n - 1]))
  {
    TakeOneMore(d, n);
  }

  /** `reject` keeps exactly the entries the block turns down. */
  lemma RejectKeepsRest(d: Db, pred: (Bytes, Bytes) -> bool)
    ensures Accumulate(Pairs(d), map[], RejectStep(pred))
         == map k | k in d.entries && !pred(k, d.entries[k]) :: d.entries[k]
  {
    RejectPrefix(d, |d.order|, pred);
    assert Pairs(d)[..|d.order|] == Pairs(d);
    assert d.order[..|d.order|] == d.order;
    var m := Accumulate(Pairs(d), map[], RejectStep(pred));
    var kept := map k | k in d.entries && !pred(k, d.entries[k]) :: d.entries[k];
    assert m.Keys == kept.Keys;
  }

  lemma {:induction false} SelectPrefix(d: Db, n: nat, pred: (Bytes, Bytes) -> bool)
    requires n <= |d.order|
    ensures forall p :: p in Accumulate(Pairs(d)[..n], [], SelectStep(pred)) <==>
      p.0 in d.order[..n] && p.1 == d.entries[p.0] && pred(p.0, p.1)
  {
    if n > 0 {
      SelectPrefix(d, n - 1, pred);
      var ps := Pairs(d);
      assert ps[..n] == ps[..n - 1] + [ps[n - 1]];
      AccumulateSnoc(ps[..n - 1], ps[n - 1], [], SelectStep(pred));
      TakeOneMore(d, n);
    }
  }

  /** The entries of `s` come from the first `n` steps of the walk, each key
      strictly after the one before it. */
  ghost predicate InWalkOrder(d: Db, n: nat, s: seq<Pair>) {
    && (forall i :: 0 <= i < |s| ==> s[i].0 in d.entries && IndexOf(d.order, s[i].0) < n)
    && (forall i, j :: 0 <= i < j < |s| ==> IndexOf(d.order, s[i].0) < IndexOf(d.order, s[j].0))
  }

  lemma {:induction false} SelectOrderPrefix(d: Db, n: nat, pred: (Bytes, Bytes) -> bool)
    requires n <= |d.order|
    ensures InWalkOrder(d, n, Accumulate(Pairs(d)[..n], [], SelectStep(pred)))
  {
    if n > 0 {
      SelectOrderPrefix(d, n - 1, pred);
      var ps := Pairs(d);
      assert ps[..n] == ps[..n - 1] + [ps[n - 1]];
      AccumulateSnoc(ps[..n - 1], ps[n - 1], [], SelectStep(pred));
      SelectOrderOne(d, n, pred, Accumulate(ps[..n - 1], [], SelectStep(pred)));
    }
  }

  lemma SelectOrderOne(d: Db, n: nat, pred: (Bytes, Bytes) -> bool, prev: seq<Pair>)
    requires 0 < n <= |d.order|
    requires InWalkOrder(d, n - 1, prev)
    ensures InWalkOrder(d, n, SelectStep(pred)(prev, Pairs(d)[n - 1]))
  {
    IndexOfDistinct(d.order, n - 1);
    var next := SelectStep(pred)(prev, Pairs(d)[n - 1]);
    if pred(Pairs(d)[n - 1].0, Pairs(d)[n - 1].1) {
      assert next == prev + [Pairs(d)[n - 1]];
      assert next[|prev|].0 == d.order[n - 1];
    }
  }

  /** `select` lists exactly the entries the block accepts, each once and in
      walk order: it is the walk with the turned-down entries filtered out. */
  lemma SelectMatches(d: Db, pred: (Bytes, Bytes) -> bool)
    ensures forall p :: p in Accumulate(Pairs(d), [], SelectStep(pred)) <==>
      p.0 in d.entries && p.1 == d.entries[p.0] && pred(p.0, p.1)
    ensures InWalkOrder(d, |d.order|, Accumulate(Pairs(d), [], SelectStep(pred)))
    ensures forall i, j :: 0 <= i < j < |Accumulate(Pairs(d), [], SelectStep(pred))| ==>
      Accumulate(Pairs(d), [], SelectStep(pred))[i].0 != Accumulate(Pairs(d), [], SelectStep(pred))[j].0
  {
    SelectPrefix(d, |d.order|, pred);
    SelectOrderPrefix(d, |d.order|, pred);
    assert Pairs(d)[..|d.order|] == Pairs(d);
    assert d.order[..|d.order|] == d.order;
  }
}
