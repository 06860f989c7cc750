/** The read-only half of the `GDBM` dictionary facade (lib/gdbm.rb:278-280,
    364-570). Every method obtains the handle through the `file` guard, so a
    closed object raises "closed GDBM file"; none of them looks at the frozen
    flag. Blocks are pure functions of the yielded key and value. */
module Lookup {
  import opened Base
  import opened Engine
  import Ffi
  import opened Walk
  import opened Lifecycle

  /** `[]`: the stored value, or nil. */
  function Get(g: Gdbm, k: Bytes): (r: Result<Option<Bytes>>)
    ensures IsClosed(g) ==> r == Err(ClosedFile)
    ensures r.Ok? <==> g.file.Live?
    ensures r.Ok? ==> (r.value.Some? <==> k in g.file.db.entries)
    ensures r.Ok? && r.value.Some? ==> r.value.value == g.file.db.entries[k]
  {
    match File(g)
    case Err(e) => Err(e)
    case Ok(d) => Ok(Ffi.Fetch(d, k))
  }

  /** `fetch`: the stored value; for a missing key the default when one is
      given, else the block's answer, else IndexError "key not found". */
  function FetchOr(g: Gdbm, k: Bytes, default: Option<Bytes>, block: Option<Bytes -> Bytes>): (r: Result<Bytes>)
    ensures IsClosed(g) ==> r == Err(ClosedFile)
    ensures g.file.Live? && k in g.file.db.entries ==> r == Ok(g.file.db.entries[k])
    ensures g.file.Live? && k !in g.file.db.entries && default.Some? ==> r == Ok(default.value)
    ensures g.file.Live? && k !in g.file.db.entries && default.None? && block.Some? ==> r == Ok(block.value(k))
    ensures g.file.Live? && k !in g.file.db.entries && default.None? && block.None? ==> r == Err(KeyNotFound)
  {
    match File(g)
    case Err(e) => Err(e)
    case Ok(d) =>
      match Ffi.Fetch(d, k)
      case Some(v) => Ok(v)
      case None =>
        if default.Some? then Ok(default.value)
        else if block.Some? then Ok(block.value(k))
        else Err(KeyNotFound)
  }

  /** `has_key?` (also `key?`, `member?`, `include?`). */
  function HasKey(g: Gdbm, k: Bytes): (r: Result<bool>)
    ensures IsClosed(g) ==> r == Err(ClosedFile)
    ensures r.Ok? <==> g.file.Live?
    ensures r.Ok? ==> (r.value <==> k in g.file.db.entries)
  {
    match File(g)
    case Err(e) => Err(e)
    case Ok(d) => Ok(Ffi.Exists(d, k))
  }

  /** `has_key?` and `[]` agree: a key is present exactly when it reads non-nil. */
  lemma HasKeyAgreesWithGet(g: Gdbm, k: Bytes)
    ensures HasKey(g, k).Ok? <==> Get(g, k).Ok?
    ensures HasKey(g, k).Ok? ==> (HasKey(g, k).value <==> Get(g, k).value.Some?)
  {
  }

  /** Position of the first pair in `ps` whose value is `v`, or `|ps|`: where
      the early `return` of `has_value?` and `key` leaves the walk. */
  function FindValue(ps: seq<Pair>, v: Bytes): (i: nat)
    ensures i <= |ps|
    ensures i < |ps| ==> ps[i].1 == v
    ensures forall j :: 0 <= j < i ==> ps[j].1 != v
  {
    if |ps| == 0 then 0
    else if ps[0].1 == v then 0
    else 1 + FindValue(ps[1..], v)
  }

  /** The walk stops early exactly when some entry holds `v`. */
  lemma FindValueHit(d: Db, v: Bytes)
    ensures FindValue(Pairs(d), v) < |Pairs(d)| <==> v in d.entries.Values
  {
    PairsComplete(d);
    var ps := Pairs(d);
    if v in d.entries.Values {
      var k :| k in d.entries && d.entries[k] == v;
      var i := IndexOf(d.order, k);
      assert ps[i].1 == v;
    }
  }

  /** `has_value?` (also `value?`): some entry holds `v`. */
  function HasValue(g: Gdbm, v: Bytes): (r: Result<bool>)
    ensures IsClosed(g) ==> r == Err(ClosedFile)
    ensures r.Ok? <==> g.file.Live?
    ensures r.Ok? ==> (r.value <==> v in g.file.db.entries.Values)
  {
    match File(g)
    case Err(e) => Err(e)
    case Ok(d) =>
      FindValueHit(d, v);
      Ok(FindValue(Pairs(d), v) < |Pairs(d)|)
  }

  /** `key` (and the deprecated `index`): the first key in walk order that
      holds `v`, or nil when no entry does. */
  function KeyOf(g: Gdbm, v: Bytes): (r: Result<Option<Bytes>>)
    ensures IsClosed(g) ==> r == Err(ClosedFile)
    ensures r.Ok? <==> g.file.Live?
    ensures r.Ok? ==> (r.value.None? <==> v !in g.file.db.entries.Values)
    ensures r.Ok? && r.value.Some? ==>
      var d := g.file.db;
      && r.value.value in d.entries && d.entries[r.value.value] == v
      && forall k :: k in d.entries && IndexOf(d.order, k) < IndexOf(d.order, r.value.value) ==> d.entries[k] != v
  {
    match File(g)
    case Err(e) => Err(e)
    case Ok(d) =>
      FindValueHit(d, v);
      PairsComplete(d);
      var i := FindValue(Pairs(d), v);
      if i < |Pairs(d)| then
        IndexOfDistinct(d.order, i);
        assert forall k :: k in d.entries && IndexOf(d.order, k) < i ==> Pairs(d)[IndexOf(d.order, k)].1 != v;
        Ok(Some(Pairs(d)[i].0))
      else Ok(None)
  }

  /** `keys`: every key once, in walk order. */
  function Keys(g: Gdbm): (r: Result<seq<Bytes>>)
    ensures IsClosed(g) ==> r == Err(ClosedFile)
    ensures r.Ok? <==> g.file.Live?
    ensures r.Ok? ==> var d := g.file.db;
      && |r.value| == |d.entries|
      && Distinct(r.value)
      && (forall k :: k in r.value <==> k in d.entries)
  {
    match File(g)
    case Err(e) => Err(e)
    case Ok(d) =>
      ListsFollowWalk(d);
      CardinalityAgrees(d);
      Ok(Accumulate(Pairs(d), [], IntoKeys))
  }

  /** `values`: one value per entry, positionally matching `keys`. */
  function Values(g: Gdbm): (r: Result<seq<Bytes>>)
    ensures IsClosed(g) ==> r == Err(ClosedFile)
    ensures r.Ok? <==> g.file.Live?
    ensures r.Ok? ==> Keys(g).Ok? && |r.value| == |Keys(g).value|
    ensures r.Ok? ==> forall i :: 0 <= i < |r.value| ==> r.value[i] == g.file.db.entries[Keys(g).value[i]]
    ensures r.Ok? ==> forall v :: v in r.value <==> v in g.file.db.entries.Values
  {
    match File(g)
    case Err(e) => Err(e)
    case Ok(d) =>
      ListsFollowWalk(d);
      var vs := Accumulate(Pairs(d), [], IntoValues);
      assert forall v :: v in d.entries.Values ==> v in vs by {
        forall v | v in d.entries.Values ensures v in vs {
          var k :| k in d.entries && d.entries[k] == v;
          assert vs[IndexOf(d.order, k)] == v;
        }
      }
      Ok(vs)
  }

  /** `to_a`: the entries as `[key, value]` pairs in walk order, each key once. */
  function ToA(g: Gdbm): (r: Result<seq<Pair>>)
    ensures IsClosed(g) ==> r == Err(ClosedFile)
    ensures r.Ok? <==> g.file.Live?
    ensures r.Ok? ==> var d := g.file.db;
      && |r.value| == |d.entries|
      && (forall i, j :: 0 <= i < j < |r.value| ==> r.value[i].0 != r.value[j].0)
      && (forall i :: 0 <= i < |r.value| ==> r.value[i].0 in d.entries && r.value[i].1 == d.entries[r.value[i].0])
      && (forall k :: k in d.entries ==> (k, d.entries[k]) in r.value)
  {
    match File(g)
    case Err(e) => Err(e)
    case Ok(d) =>
      ListsFollowWalk(d);
      PairsComplete(d);
      CardinalityAgrees(d);
      assert forall k :: k in d.entries ==> Pairs(d)[IndexOf(d.order, k)] == (k, d.entries[k]);
      Ok(Accumulate(Pairs(d), [], IntoList))
  }

  /** `to_hash`: a Hash with exactly the stored entries. */
  function ToHash(g: Gdbm): (r: Result<map<Bytes, Bytes>>)
    ensures IsClosed(g) ==> r == Err(ClosedFile)
    ensures r.Ok? <==> g.file.Live?
    ensures r.Ok? ==> r.value == g.file.db.entries
  {
    match File(g)
    case Err(e) => Err(e)
    case Ok(d) =>
      ToHashIsEntries(d);
      Ok(ToMap(Pairs(d)))
  }

  /** `to_a` followed by building a Hash from the pairs gives back `to_hash`. */
  lemma ToARoundTrip(g: Gdbm)
    requires g.file.Live?
    ensures ToA(g).Ok? && ToMap(ToA(g).value) == ToHash(g).value
  {
    ListsFollowWalk(g.file.db);
    ToHashIsEntries(g.file.db);
  }

  /** `invert`: a Hash from each stored value to a key holding it; among keys
      sharing a value, the one walked last wins. */
  function Invert(g: Gdbm): (r: Result<map<Bytes, Bytes>>)
    ensures IsClosed(g) ==> r == Err(ClosedFile)
    ensures r.Ok? <==> g.file.Live?
    ensures r.Ok? ==> var d := g.file.db;
      && r.value.Keys == d.entries.Values
      && (forall v :: v in r.value ==> r.value[v] in d.entries && d.entries[r.value[v]] == v)
      && (forall k :: k in d.entries ==> IndexOf(d.order, k) <= IndexOf(d.order, r.value[d.entries[k]]))
  {
    match File(g)
    case Err(e) => Err(e)
    case Ok(d) =>
      InvertLastWins(d);
      Ok(Accumulate(Pairs(d), map[], IntoInverse))
  }

  /** `length` (also `size`): the number of entries. */
  function Length(g: Gdbm): (r: Result<nat>)
    ensures IsClosed(g) ==> r == Err(ClosedFile)
    ensures r.Ok? <==> g.file.Live?
    ensures r.Ok? ==> r.value == |g.file.db.entries|
  {
    match File(g)
    case Err(e) => Err(e)
    case Ok(d) =>
      LengthCountsEntries(d);
      Ok(Accumulate(Pairs(d), 0, IntoCount))
  }

  /** `empty?`: asks only for the first key. */
  function IsEmpty(g: Gdbm): (r: Result<bool>)
    ensures IsClosed(g) ==> r == Err(ClosedFile)
    ensures r.Ok? <==> g.file.Live?
    ensures r.Ok? ==> (r.value <==> g.file.db.entries == map[])
  {
    match File(g)
    case Err(e) => Err(e)
    case Ok(d) => Ok(Ffi.FirstKey(d).None?)
  }

  /** `empty?` and `length` agree although one reads a single key and the
      other walks the whole file. */
  lemma EmptyIffNoLength(g: Gdbm)
    ensures IsEmpty(g).Ok? <==> Length(g).Ok?
    ensures IsEmpty(g).Ok? ==> (IsEmpty(g).value <==> Length(g).value == 0)
  {
  }

  /** `reject`: a Hash of the entries the block turns down. */
  function Reject(g: Gdbm, pred: (Bytes, Bytes) -> bool): (r: Result<map<Bytes, Bytes>>)
    ensures IsClosed(g) ==> r == Err(ClosedFile)
    ensures r.Ok? <==> g.file.Live?
    ensures r.Ok? ==> var d := g.file.db;
      && (forall k :: k in r.value <==> k in d.entries && !pred(k, d.entries[k]))
      && (forall k :: k in r.value ==> r.value[k] == d.entries[k])
  {
    match File(g)
    case Err(e) => Err(e)
    case Ok(d) =>
      RejectKeepsRest(d, pred);
      Ok(Accumulate(Pairs(d), map[], RejectStep(pred)))
  }

  /** `select` with a block: the `[key, value]` pairs the block accepts, each
      once and in walk order. Any positional argument raises ArgumentError
      before the file is consulted. */
  function Select(g: Gdbm, nargs: nat, pred: (Bytes, Bytes) -> bool): (r: Result<seq<Pair>>)
    ensures nargs > 0 ==> r == Err(WrongArgCount(nargs))
    ensures nargs == 0 && IsClosed(g) ==> r == Err(ClosedFile)
    ensures r.Ok? <==> nargs == 0 && g.file.Live?
    ensures r.Ok? ==> var d := g.file.db;
      forall p :: p in r.value <==> p.0 in d.entries && p.1 == d.entries[p.0] && pred(p.0, p.1)
    ensures r.Ok? ==> forall i, j :: 0 <= i < j < |r.value| ==> r.value[i].0 != r.value[j].0
    ensures r.Ok? ==> forall i, j :: 0 <= i < j < |r.value| ==>
      IndexOf(g.file.db.order, r.value[i].0) < IndexOf(g.file.db.order, r.value[j].0)
  {
    if nargs > 0 then Err(WrongArgCount(nargs))
    else match File(g)
    case Err(e) => Err(e)
    case Ok(d) =>
      SelectMatches(d, pred);
      Ok(Accumulate(Pairs(d), [], SelectStep(pred)))
  }

  /** `select` and `reject` split the entries between them. */
  lemma SelectRejectPartition(g: Gdbm, pred: (Bytes, Bytes) -> bool)
    requires g.file.Live?
    ensures var d := g.file.db;
      forall k :: k in d.entries ==>
        ((k, d.entries[k]) in Select(g, 0, pred).value <==> k !in Reject(g, pred).value)
  {
  }

  /** `values_at`: `[]` of each argument in turn. With no arguments the file
      is never consulted, so even a closed object answers `[]`. */
  function ValuesAt(g: Gdbm, ks: seq<Bytes>): (r: Result<seq<Option<Bytes>>>)
    decreases |ks|
    ensures |ks| == 0 ==> r == Ok([])
    ensures |ks| > 0 && IsClosed(g) ==> r == Err(ClosedFile)
    ensures r.Ok? <==> |ks| == 0 || g.file.Live?
    ensures r.Ok? ==> |r.value| == |ks|
    ensures r.Ok? ==> forall i :: 0 <= i < |ks| ==> Get(g, ks[i]) == Ok(r.value[i])
  {
    if |ks| == 0 then Ok([])
    else
      match ValuesAt(g, ks[..|ks| - 1])
      case Err(e) => Err(e)
      case Ok(vs) =>
        match Get(g, ks[|ks| - 1])
        case Err(e) => Err(e)
        case Ok(v) => Ok(vs + [v])
  }

  // ---- the block-taking walks of GDBM; each returns `self`, so the model
  // returns what the block was shown ----

  /** `each_pair` (also `each`): yields exactly what `to_a` lists. */
  method EachPair(g: Gdbm) returns (r: Result<seq<Pair>>)
    ensures IsClosed(g) ==> r == Err(ClosedFile)
    ensures r.Ok? <==> g.file.Live?
    ensures r.Ok? ==> r == ToA(g)
  {
    match File(g)
    case Err(e) =>
      return Err(e);
    case Ok(d) =>
      var visited := Ffi.EachPair(d);
      ListsFollowWalk(d);
      return Ok(visited);
  }

  /** `each_key`: yields exactly what `keys` lists. */
  method EachKey(g: Gdbm) returns (r: Result<seq<Bytes>>)
    ensures IsClosed(g) ==> r == Err(ClosedFile)
    ensures r.Ok? <==> g.file.Live?
    ensures r.Ok? ==> r == Keys(g)
  {
    match File(g)
    case Err(e) =>
      return Err(e);
    case Ok(d) =>
      var visited := Ffi.EachKey(d);
      ListsFollowWalk(d);
      return Ok(visited);
  }

  /** `each_value`: yields exactly what `values` lists. */
  method EachValue(g: Gdbm) returns (r: Result<seq<Bytes>>)
    ensures IsClosed(g) ==> r == Err(ClosedFile)
    ensures r.Ok? <==> g.file.Live?
    ensures r.Ok? ==> r == Values(g)
  {
    match File(g)
    case Err(e) =>
      return Err(e);
    case Ok(d) =>
      var visited := Ffi.EachValue(d);
      ListsFollowWalk(d);
      assert visited == Accumulate(Pairs(d), [], IntoValues);
      return Ok(visited);
  }
}
