/**
 The lookup both deletion indexes of the layer squasher share (peimage/src/squash.rs): an ordered map
 asked through the greatest stored key at or below a path. It is stated for any order of the paths
 in which a directory comes before what is below it.
 */
module OrderedLookup {
  import opened Bytes

  datatype State = Whiteout | Opaque | Shadowed

  datatype Reason = ByWhiteout | ByWhiteoutDir | ByOpaque | ByShadow

  predicate DeletesSelf(s: State) {
    !s.Opaque?
  }

  predicate DeletesBelow(s: State) {
    !s.Shadowed?
  }

  /** `below(p, k)`: the path `p` lies below the directory `k`. */
  datatype Order<!K> = Order(le: (K, K) -> bool, below: (K, K) -> bool)

  ghost predicate TotalOrder<K(!new)>(o: Order<K>) {
    && (forall a, b :: o.le(a, b) && o.le(b, a) ==> a == b)
    && (forall a, b :: o.le(a, b) || o.le(b, a))
    && (forall a, b, c :: o.le(a, b) && o.le(b, c) ==> o.le(a, c))
  }

  /** A total order; a directory comes before what is below it; directories above one path are nested. */
  ghost predicate Lawful<K(!new)>(o: Order<K>) {
    && TotalOrder(o)
    && (forall p, k :: o.below(p, k) ==> o.le(k, p) && k != p)
    && (forall p, a, b :: o.below(p, a) && o.below(p, b) && o.le(a, b) ==> a == b || o.below(b, a))
  }

  predicate IsFloor<K(==, !new)>(o: Order<K>, keys: set<K>, p: K, k: K) {
    k in keys && o.le(k, p) && forall q :: q in keys && o.le(q, p) ==> o.le(q, k)
  }

  lemma {:induction false} FloorExists<K(!new)>(o: Order<K>, keys: set<K>, p: K, q: K)
    requires TotalOrder(o) && q in keys && o.le(q, p)
    ensures exists k :: IsFloor(o, keys, p, k)
    decreases |keys|
  {
    if r :| r in keys && o.le(r, p) && !o.le(r, q) {
      var fewer := keys - {q};
      FloorExists(o, fewer, p, r);
      var k :| IsFloor(o, fewer, p, k);
      assert o.le(r, k) && o.le(q, r);
      assert IsFloor(o, keys, p, k);
    } else {
      assert IsFloor(o, keys, p, q);
    }
  }

  lemma FloorFound<K(!new)>(o: Order<K>, keys: set<K>, p: K)
    requires TotalOrder(o) && exists q :: q in keys && o.le(q, p)
    ensures exists k :: k in keys && IsFloor(o, keys, p, k)
  {
    var q :| q in keys && o.le(q, p);
    FloorExists(o, keys, p, q);
  }

  /** The last key of the range up to and including the path. */
  function Floor<K(==, !new)>(o: Order<K>, m: map<K, State>, p: K): (r: Option<K>)
    requires TotalOrder(o)
    ensures r.Some? ==> IsFloor(o, m.Keys, p, r.value)
    ensures r.None? ==> forall q :: q in m ==> !o.le(q, p)
  {
    if exists q :: q in m.Keys && o.le(q, p) then
      FloorFound(o, m.Keys, p);
      var k :| k in m.Keys && IsFloor(o, m.Keys, p, k);
      Some(k)
    else None
  }

  /** `is_deleted`: only the floor key is looked at. */
  function Lookup<K(==, !new)>(o: Order<K>, m: map<K, State>, p: K): Option<Reason>
    requires TotalOrder(o)
  {
    match Floor(o, m, p)
    case None => None
    case Some(key) =>
      match m[key]
      case Shadowed => if key == p then Some(ByShadow) else None
      case Whiteout => if key == p then Some(ByWhiteout) else if o.below(p, key) then Some(ByWhiteoutDir) else None
      case Opaque => if key != p && o.below(p, key) then Some(ByOpaque) else None
  }

  /** The path itself is stored as deleted. */
  predicate Exact<K(==)>(m: map<K, State>, p: K) {
    p in m && DeletesSelf(m[p])
  }

  /** Everything below the path is stored as deleted. */
  predicate Under<K(==)>(m: map<K, State>, p: K) {
    p in m && DeletesBelow(m[p])
  }

  /** Nothing is stored after `k` up to `p`. */
  ghost predicate NoKeyBetween<K(!new)>(o: Order<K>, m: map<K, State>, k: K, p: K) {
    forall q :: q in m && o.le(q, p) ==> o.le(q, k)
  }

  /**
   Exactly what the lookup reports: the path itself, always; and a deletion from a directory
   above it if and only if nothing is stored between that directory and the path.
   */
  lemma LookupExact<K(!new)>(o: Order<K>, m: map<K, State>, p: K)
    requires Lawful(o)
    ensures Lookup(o, m, p).Some? <==>
      Exact(m, p) || exists k :: Under(m, k) && o.below(p, k) && NoKeyBetween(o, m, k, p)
  {
  }

  /**
   Why: the path itself as a whiteout or only as seen; else the nearest key, a directory above, as a whiteout
   or only as opaque.
   */
  lemma ReasonExact<K(!new)>(o: Order<K>, m: map<K, State>, p: K)
    requires Lawful(o)
    ensures Lookup(o, m, p) == Some(ByWhiteout) <==> Exact(m, p) && Under(m, p)
    ensures Lookup(o, m, p) == Some(ByShadow) <==> Exact(m, p) && !Under(m, p)
    ensures Lookup(o, m, p) == Some(ByWhiteoutDir) <==>
      exists k :: Under(m, k) && Exact(m, k) && o.below(p, k) && NoKeyBetween(o, m, k, p)
    ensures Lookup(o, m, p) == Some(ByOpaque) <==>
      exists k :: Under(m, k) && !Exact(m, k) && o.below(p, k) && NoKeyBetween(o, m, k, p)
  {
  }

  ghost predicate Deepest<K(!new)>(o: Order<K>, m: map<K, State>, p: K, deepest: K) {
    && Under(m, deepest) && o.below(p, deepest)
    && forall k :: Under(m, k) && o.below(p, k) ==> k == deepest || o.below(deepest, k)
  }

  /** A path deleted from above has a deepest deleting directory. */
  lemma DeepestExists<K(!new)>(o: Order<K>, m: map<K, State>, p: K, k: K)
    requires Lawful(o) && Under(m, k) && o.below(p, k)
    ensures exists deepest :: Deepest(o, m, p, deepest)
  {
    var above := set q | q in m && Under(m, q) && o.below(p, q);
    FloorExists(o, above, p, k);
    var deepest :| IsFloor(o, above, p, deepest);
    assert Deepest(o, m, p, deepest);
  }

  /**
   Where the lookup falls short of asking every directory above: a deletion is missed exactly when the
   deepest deleting directory has a stored key after it, up to the path.
   */
  lemma MissedExactly<K(!new)>(o: Order<K>, m: map<K, State>, p: K, deepest: K)
    requires Lawful(o) && !Exact(m, p) && Deepest(o, m, p, deepest)
    ensures Lookup(o, m, p).None? <==> exists q :: q in m && o.le(q, p) && !o.le(q, deepest)
  {
  }
}
