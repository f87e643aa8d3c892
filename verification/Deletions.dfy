/**
 The deletion indexes of the layer squasher (peimage/src/squash.rs): what inserting does, and the
 lookup for paths compared byte by byte and for paths compared component by component.
 */
module Deletions {
  import opened Bytes
  import opened Paths
  import opened OrderedLookup

  type PathMap = map<Bytes, State>

  // ---------- inserting ----------

  /** The states of one key combine to delete what either deletes. */
  function Join(stored: State, added: State): (s: State)
    ensures DeletesSelf(s) <==> DeletesSelf(stored) || DeletesSelf(added)
    ensures DeletesBelow(s) <==> DeletesBelow(stored) || DeletesBelow(added)
  {
    match (stored, added)
    case (Whiteout, _) => Whiteout
    case (Opaque, Opaque) => Opaque
    case (Shadowed, Shadowed) => Shadowed
    case (Opaque, _) => Whiteout
    case (Shadowed, _) => Whiteout
  }

  function Insert<K(==)>(m: map<K, State>, p: K, s: State): map<K, State> {
    m[p := if p in m then Join(m[p], s) else s]
  }

  datatype Op<K> = Op(path: K, state: State)

  function InsertAll<K(==)>(m: map<K, State>, ops: seq<Op<K>>): map<K, State> {
    if ops == [] then m
    else Insert(InsertAll(m, ops[..|ops| - 1]), ops[|ops| - 1].path, ops[|ops| - 1].state)
  }

  predicate SomeSelf<K(==)>(ops: seq<Op<K>>, p: K) {
    exists i :: 0 <= i < |ops| && ops[i].path == p && DeletesSelf(ops[i].state)
  }

  predicate SomeBelow<K(==)>(ops: seq<Op<K>>, p: K) {
    exists i :: 0 <= i < |ops| && ops[i].path == p && DeletesBelow(ops[i].state)
  }

  /** After any run of inserts the map denotes exactly what it did before plus what each insert denotes. */
  lemma {:induction false} InsertsJoin<K>(m: map<K, State>, ops: seq<Op<K>>, p: K)
    ensures Exact(InsertAll(m, ops), p) <==> Exact(m, p) || SomeSelf(ops, p)
    ensures Under(InsertAll(m, ops), p) <==> Under(m, p) || SomeBelow(ops, p)
    decreases |ops|
  {
    if ops != [] {
      var n := |ops| - 1;
      InsertsJoin(m, ops[..n], p);
      assert forall i :: 0 <= i < n ==> ops[..n][i] == ops[i];
      assert SomeSelf(ops, p) <==> SomeSelf(ops[..n], p) || (ops[n].path == p && DeletesSelf(ops[n].state));
      assert SomeBelow(ops, p) <==> SomeBelow(ops[..n], p) || (ops[n].path == p && DeletesBelow(ops[n].state));
    }
  }

  /** A map is determined by what it denotes. */
  lemma SameDenotation<K(!new)>(a: map<K, State>, b: map<K, State>)
    requires forall p :: (Exact(a, p) <==> Exact(b, p)) && (Under(a, p) <==> Under(b, p))
    ensures a == b
  {
    forall p ensures p in a <==> p in b
             ensures p in a ==> a[p] == b[p]
    {
      assert (Exact(a, p) <==> Exact(b, p)) && (Under(a, p) <==> Under(b, p));
    }
  }

  /** The order of inserts does not matter. */
  lemma InsertOrder<K(!new)>(m: map<K, State>, ops: seq<Op<K>>, ops': seq<Op<K>>)
    requires multiset(ops) == multiset(ops')
    ensures InsertAll(m, ops) == InsertAll(m, ops')
  {
    forall p ensures SomeSelf(ops, p) <==> SomeSelf(ops', p)
             ensures SomeBelow(ops, p) <==> SomeBelow(ops', p)
    {
      SameMembers(ops, ops', p);
      SameMembers(ops', ops, p);
    }
    forall p ensures Exact(InsertAll(m, ops), p) <==> Exact(InsertAll(m, ops'), p)
             ensures Under(InsertAll(m, ops), p) <==> Under(InsertAll(m, ops'), p)
    {
      InsertsJoin(m, ops, p);
      InsertsJoin(m, ops', p);
    }
    SameDenotation(InsertAll(m, ops), InsertAll(m, ops'));
  }

  lemma SameMembers<K>(a: seq<Op<K>>, b: seq<Op<K>>, p: K)
    requires multiset(a) == multiset(b)
    ensures SomeSelf(a, p) ==> SomeSelf(b, p)
    ensures SomeBelow(a, p) ==> SomeBelow(b, p)
  {
    forall x | x in a ensures x in b {
      assert x in multiset(a);
    }
    if SomeSelf(a, p) {
      var i :| 0 <= i < |a| && a[i].path == p && DeletesSelf(a[i].state);
      assert a[i] in b;
    }
    if SomeBelow(a, p) {
      var i :| 0 <= i < |a| && a[i].path == p && DeletesBelow(a[i].state);
      assert a[i] in b;
    }
  }

  // ---------- paths compared by bytes ----------

  /** `without_trailing_slash` */
  function Trim(p: Bytes): Bytes {
    if p != [] && p[|p| - 1] == SLASH then p[..|p| - 1] else p
  }

  /** `os_str_starts_with`: `p` lies below the directory `k`. */
  predicate Below(p: Bytes, k: Bytes) {
    k <= p && |k| < |p| && p[|k|] == SLASH
  }

  const BY_BYTES: Order<Bytes> := Order((a, b) => LessEq(a, b), (p, k) => Below(p, k))

  lemma BelowIsLess(p: Bytes, k: Bytes)
    requires Below(p, k)
    ensures Less(k, p) && k != p
  {
    PrefixLess(k, p);
  }

  lemma LessEqAntisymmetric(a: Bytes, b: Bytes)
    requires LessEq(a, b) && LessEq(b, a)
    ensures a == b
  {
    if a != b {
      LessTransitive(a, b, a);
      LessIrreflexive(a);
    }
  }

  /** Directories above one path are nested. */
  lemma AncestorsNested(p: Bytes, a: Bytes, b: Bytes)
    requires Below(p, a) && Below(p, b) && LessEq(a, b)
    ensures a == b || Below(b, a)
  {
    if |b| <= |a| {
      assert b == a[..|b|];
      if a != b { PrefixLess(b, a); }
      LessEqAntisymmetric(a, b);
    } else {
      assert a == b[..|a|];
      assert b[|a|] == p[|a|];
    }
  }

  lemma BytesOrdered()
    ensures TotalOrder(BY_BYTES)
  {
    hide Less;
    forall a, b | BY_BYTES.le(a, b) && BY_BYTES.le(b, a) ensures a == b { LessEqAntisymmetric(a, b); }
    forall a, b ensures BY_BYTES.le(a, b) || BY_BYTES.le(b, a) { LessTotal(a, b); }
    forall a, b, c | BY_BYTES.le(a, b) && BY_BYTES.le(b, c) ensures BY_BYTES.le(a, c) {
      if a != b && b != c { LessTransitive(a, b, c); }
    }
  }

  lemma BytesLawful()
    ensures Lawful(BY_BYTES)
  {
    BytesOrdered();
    forall p, k | BY_BYTES.below(p, k) ensures BY_BYTES.le(k, p) && k != p { BelowIsLess(p, k); }
    forall p, a, b | BY_BYTES.below(p, a) && BY_BYTES.below(p, b) && BY_BYTES.le(a, b)
      ensures a == b || BY_BYTES.below(b, a)
    {
      AncestorsNested(p, a, b);
    }
  }

  /** `is_deleted` of the index in use. */
  function IsDeleted(m: PathMap, path: Bytes): Option<Reason> {
    BytesOrdered();
    Lookup(BY_BYTES, m, Trim(path))
  }

  /** Reference: some stored entry, of the path or of a directory above it, deletes the path. */
  ghost predicate Deleted(m: PathMap, p: Bytes) {
    Exact(m, p) || exists k :: Under(m, k) && Below(p, k)
  }

  /** No key of the set comes after `k` up to `p`. */
  ghost predicate NothingBetween(keys: iset<Bytes>, k: Bytes, p: Bytes) {
    forall q :: q in keys ==> !(Less(k, q) && LessEq(q, p))
  }

  ghost function Stored(m: PathMap): iset<Bytes> {
    iset q | q in m
  }

  lemma BetweenAgrees(m: PathMap, k: Bytes, p: Bytes)
    ensures NoKeyBetween(BY_BYTES, m, k, p) <==> NothingBetween(Stored(m), k, p)
  {
    hide Less;
    forall q ensures LessEq(q, k) <==> !Less(k, q) {
      LessTotal(q, k);
      if LessEq(q, k) && Less(k, q) {
        LessEqAntisymmetric(q, k);
        LessIrreflexive(k);
      }
    }
    if NothingBetween(Stored(m), k, p) {
      forall q | q in m && BY_BYTES.le(q, p) ensures BY_BYTES.le(q, k) { assert q in Stored(m); }
    }
    if NoKeyBetween(BY_BYTES, m, k, p) {
      forall q | q in Stored(m) ensures !(Less(k, q) && LessEq(q, p)) { assert BY_BYTES.le(q, p) <==> LessEq(q, p); }
    }
  }

  /**
   Exactly what the lookup reports: the path itself, always; and a deletion from a directory
   above it if and only if nothing is stored between that directory and the path in byte order.
   */
  lemma LookupExact(m: PathMap, path: Bytes)
    ensures IsDeleted(m, path).Some? <==>
      var p := Trim(path);
      Exact(m, p) || exists k :: Under(m, k) && Below(p, k) && NothingBetween(Stored(m), k, p)
  {
    hide Less, Lookup, Trim, Under, Exact;
    BytesLawful();
    var p := Trim(path);
    OrderedLookup.LookupExact(BY_BYTES, m, p);
    forall k ensures NoKeyBetween(BY_BYTES, m, k, p) <==> NothingBetween(Stored(m), k, p) { BetweenAgrees(m, k, p); }
    assert forall k :: BY_BYTES.below(p, k) <==> Below(p, k);
  }

  /** The reason it gives: what the path is stored as, or else what the directory nearest above it is stored as. */
  lemma ReasonExact(m: PathMap, path: Bytes)
    ensures var p := Trim(path);
      && (IsDeleted(m, path) == Some(ByWhiteout) <==> Exact(m, p) && Under(m, p))
      && (IsDeleted(m, path) == Some(ByShadow) <==> Exact(m, p) && !Under(m, p))
      && (IsDeleted(m, path) == Some(ByWhiteoutDir) <==>
          exists k :: Under(m, k) && Exact(m, k) && Below(p, k) && NothingBetween(Stored(m), k, p))
      && (IsDeleted(m, path) == Some(ByOpaque) <==>
          exists k :: Under(m, k) && !Exact(m, k) && Below(p, k) && NothingBetween(Stored(m), k, p))
  {
    hide Less, Lookup, Trim, Under, Exact;
    BytesLawful();
    var p := Trim(path);
    OrderedLookup.ReasonExact(BY_BYTES, m, p);
    forall k ensures NoKeyBetween(BY_BYTES, m, k, p) <==> NothingBetween(Stored(m), k, p) { BetweenAgrees(m, k, p); }
    assert forall k :: BY_BYTES.below(p, k) <==> Below(p, k);
  }

  /** The lookup never reports a path that no entry deletes. */
  lemma LookupSound(m: PathMap, path: Bytes)
    requires IsDeleted(m, path).Some?
    ensures Deleted(m, Trim(path))
  {
    LookupExact(m, path);
  }

  /** A path seen once is shadowed from then on exactly if it does not end in a slash. */
  lemma SeenShadows(p: Bytes)
    ensures IsDeleted(Insert(map[], p, Shadowed), p).Some? <==> Trim(p) == p
  {
    var m: PathMap := Insert(map[], p, Shadowed);
    LookupExact(m, p);
    assert Exact(m, Trim(p)) <==> Trim(p) == p;
  }

  /**
   In byte order a sibling can come between a directory and what is below it: a name that goes on with
   a byte before the slash. Once the sibling is stored, the whiteout of the directory is missed.
   */
  lemma SiblingHides(d: Bytes, c: byte, x: Bytes, y: Bytes)
    requires c < SLASH && y != [] && y[|y| - 1] != SLASH
    ensures var m := map[d := Whiteout, d + [c] + x := Shadowed]; var p := d + [SLASH] + y;
      Deleted(m, Trim(p)) && !Below(d + [c] + x, d) && IsDeleted(m, p).None?
  {
    hide IsDeleted;
    var sibling, p := d + [c] + x, d + [SLASH] + y;
    var m := map[d := Whiteout, sibling := Shadowed];
    assert sibling == d + ([c] + x) && p == d + ([SLASH] + y) && d == d + [];
    assert sibling[|d|] == c && p[|d|] == SLASH;
    assert Less([], [c] + x) && Less([c] + x, [SLASH] + y);
    CommonPrefixLess(d, [], [c] + x);
    CommonPrefixLess(d, [c] + x, [SLASH] + y);
    assert Under(m, d) && Below(p, d) && Trim(p) == p;
    LookupExact(m, p);
    assert sibling in Stored(m);
    forall k | Under(m, k) ensures !NothingBetween(Stored(m), k, p) { assert k == d; }
  }

  // ---------- paths compared by components ----------

  /** The order of `std::path::Component`. */
  predicate ComponentLess(a: Component, b: Component) {
    match (a, b)
    case (Normal(x), Normal(y)) => Less(x, y)
    case _ => Rank(a) < Rank(b)
  }

  function Rank(c: Component): nat {
    match c
    case RootDir => 0
    case CurDir => 1
    case ParentDir => 2
    case Normal(_) => 3
  }

  /** The order of `Path`: component by component. */
  predicate PathLess(a: seq<Component>, b: seq<Component>) {
    b != [] && (a == [] || ComponentLess(a[0], b[0]) || (a[0] == b[0] && PathLess(a[1..], b[1..])))
  }

  /** `Path::starts_with`, for a path other than the directory itself. */
  predicate PathBelow(p: seq<Component>, k: seq<Component>) {
    k <= p && k != p
  }

  const BY_COMPONENTS: Order<seq<Component>> := Order((a, b) => a == b || PathLess(a, b), (p, k) => PathBelow(p, k))

  lemma ComponentsStrict(a: Component, b: Component, c: Component)
    ensures !ComponentLess(a, a)
    ensures ComponentLess(a, b) || a == b || ComponentLess(b, a)
    ensures ComponentLess(a, b) && ComponentLess(b, c) ==> ComponentLess(a, c)
  {
    if a.Normal? { LessIrreflexive(a.name); }
    if a.Normal? && b.Normal? {
      LessTotal(a.name, b.name);
      if c.Normal? && Less(a.name, b.name) && Less(b.name, c.name) { LessTransitive(a.name, b.name, c.name); }
    }
  }

  lemma {:induction false} PathsStrict(a: seq<Component>, b: seq<Component>, c: seq<Component>)
    ensures !PathLess(a, a)
    ensures PathLess(a, b) || a == b || PathLess(b, a)
    ensures PathLess(a, b) && PathLess(b, c) ==> PathLess(a, c)
  {
    hide ComponentLess;
    var x := if a == [] then CurDir else a[0];
    var y := if b == [] then CurDir else b[0];
    var z := if c == [] then CurDir else c[0];
    ComponentsStrict(x, y, z);
    if a != [] {
      PathsStrict(a[1..], if b == [] then [] else b[1..], if c == [] then [] else c[1..]);
      assert a == [a[0]] + a[1..] && (b != [] ==> b == [b[0]] + b[1..]);
    }
  }

  lemma {:induction false} PathPrefixLess(a: seq<Component>, b: seq<Component>)
    requires PathBelow(b, a)
    ensures PathLess(a, b)
  {
    if a != [] { PathPrefixLess(a[1..], b[1..]); }
  }

  lemma ComponentsOrdered()
    ensures TotalOrder(BY_COMPONENTS)
  {
    hide PathLess;
    forall a, b | BY_COMPONENTS.le(a, b) && BY_COMPONENTS.le(b, a) ensures a == b { PathsStrict(a, b, a); }
    forall a, b ensures BY_COMPONENTS.le(a, b) || BY_COMPONENTS.le(b, a) { PathsStrict(a, b, a); }
    forall a, b, c | BY_COMPONENTS.le(a, b) && BY_COMPONENTS.le(b, c) ensures BY_COMPONENTS.le(a, c) {
      PathsStrict(a, b, c);
    }
  }

  lemma ComponentsLawful()
    ensures Lawful(BY_COMPONENTS)
  {
    hide PathLess;
    ComponentsOrdered();
    forall p, k | BY_COMPONENTS.below(p, k) ensures BY_COMPONENTS.le(k, p) && k != p { PathPrefixLess(k, p); }
    forall p, a, b | BY_COMPONENTS.below(p, a) && BY_COMPONENTS.below(p, b) && BY_COMPONENTS.le(a, b)
      ensures a == b || BY_COMPONENTS.below(b, a)
    {
      PrefixesNested(p, a, b);
    }
  }

  lemma PrefixesNested(p: seq<Component>, a: seq<Component>, b: seq<Component>)
    requires PathBelow(p, a) && PathBelow(p, b) && (a == b || PathLess(a, b))
    ensures a == b || PathBelow(b, a)
  {
    hide PathLess;
    if |b| <= |a| {
      assert b == a[..|b|];
      if a != b {
        PathPrefixLess(b, a);
        PathsStrict(a, b, a);
      }
    } else {
      assert a == b[..|a|];
    }
  }

  /** The same exact answer for the index that compares paths by components, in its own order. */
  lemma ComponentLookupExact(m: map<seq<Component>, State>, p: seq<Component>)
    ensures TotalOrder(BY_COMPONENTS)
    ensures Lookup(BY_COMPONENTS, m, p).Some? <==>
      Exact(m, p) || exists k :: Under(m, k) && PathBelow(p, k) && NoKeyBetween(BY_COMPONENTS, m, k, p)
  {
    hide PathLess, Lookup;
    ComponentsLawful();
    OrderedLookup.LookupExact(BY_COMPONENTS, m, p);
    assert forall k :: BY_COMPONENTS.below(p, k) <==> PathBelow(p, k);
  }

  /** What comes between a directory and a path below it is below the directory too. */
  lemma {:induction false} PathContiguous(k: seq<Component>, q: seq<Component>, p: seq<Component>)
    requires k <= p && BY_COMPONENTS.le(k, q) && BY_COMPONENTS.le(q, p)
    ensures k <= q
  {
    hide ComponentLess;
    if k != [] && k != q {
      ComponentsStrict(k[0], q[0], p[0]);
      if q != p {
        PathContiguous(k[1..], q[1..], p[1..]);
        assert k == [k[0]] + k[1..] && q == [q[0]] + q[1..];
      }
    }
  }

  /** So in this index only a key stored below the deepest deleting directory can hide the deletion. */
  lemma ComponentMissedExactly(m: map<seq<Component>, State>, p: seq<Component>, deepest: seq<Component>)
    requires !Exact(m, p) && Deepest(BY_COMPONENTS, m, p, deepest)
    ensures TotalOrder(BY_COMPONENTS)
    ensures Lookup(BY_COMPONENTS, m, p).None? <==>
      exists q :: q in m && PathBelow(q, deepest) && BY_COMPONENTS.le(q, p)
  {
    hide PathLess, Lookup;
    ComponentsLawful();
    MissedExactly(BY_COMPONENTS, m, p, deepest);
    forall q | BY_COMPONENTS.le(q, p) ensures !BY_COMPONENTS.le(q, deepest) <==> PathBelow(q, deepest) {
      if !BY_COMPONENTS.le(q, deepest) { PathContiguous(deepest, q, p); }
      if PathBelow(q, deepest) {
        PathPrefixLess(deepest, q);
        PathsStrict(deepest, q, deepest);
      }
    }
  }

  // ---------- the index in place ----------

  class DeletionIndex {
    var entries: PathMap
    var whiteoutQueue: seq<Bytes>
    var opaqueQueue: seq<Bytes>

    constructor ()
      ensures entries == map[] && whiteoutQueue == [] && opaqueQueue == []
    {
      entries, whiteoutQueue, opaqueQueue := map[], [], [];
    }

    method Add(path: Bytes, state: State)
      modifies this`entries
      ensures entries == Insert(old(entries), path, state)
    {
      if path in entries {
        match (entries[path], state)
        case (Whiteout, Whiteout) =>
        case (Opaque, Opaque) =>
        case (Shadowed, Shadowed) =>
        case (Whiteout, Opaque) =>
        case (Whiteout, Shadowed) =>
        case (Opaque, Whiteout) => entries := entries[path := Whiteout];
        case (Shadowed, Whiteout) => entries := entries[path := Whiteout];
        case (Shadowed, Opaque) => entries := entries[path := Whiteout];
        case (Opaque, Shadowed) => entries := entries[path := Whiteout];
      } else {
        entries := entries[path := state];
      }
    }

    method PushWhiteout(path: Bytes)
      modifies this`whiteoutQueue
      ensures whiteoutQueue == old(whiteoutQueue) + [Trim(path)]
    {
      whiteoutQueue := whiteoutQueue + [Trim(path)];
    }

    method PushOpaque(path: Bytes)
      modifies this`opaqueQueue
      ensures opaqueQueue == old(opaqueQueue) + [Trim(path)]
    {
      opaqueQueue := opaqueQueue + [Trim(path)];
    }

    method InsertSeen(path: Bytes)
      modifies this`entries
      ensures entries == Insert(old(entries), path, Shadowed)
    {
      Add(path, Shadowed);
    }

    method EndOfLayer()
      modifies this
      ensures entries == InsertAll(old(entries), Ops(old(whiteoutQueue), Whiteout) + Ops(old(opaqueQueue), Opaque))
      ensures whiteoutQueue == [] && opaqueQueue == []
    {
      var whiteouts, opaques := whiteoutQueue, opaqueQueue;
      whiteoutQueue, opaqueQueue := [], [];
      Drain(whiteouts, Whiteout);
      Drain(opaques, Opaque);
      InsertAllAppend(old(entries), Ops(whiteouts, Whiteout), Ops(opaques, Opaque));
    }

    method Drain(queue: seq<Bytes>, state: State)
      modifies this`entries
      ensures entries == InsertAll(old(entries), Ops(queue, state))
    {
      var k := 0;
      while k < |queue|
        invariant 0 <= k <= |queue| && entries == InsertAll(old(entries), Ops(queue, state)[..k])
      {
        Add(queue[k], state);
        assert Ops(queue, state)[..k + 1][..k] == Ops(queue, state)[..k];
        k := k + 1;
      }
      assert Ops(queue, state)[..k] == Ops(queue, state);
    }
  }

  /** One insert per queued path. */
  function Ops(paths: seq<Bytes>, state: State): (r: seq<Op<Bytes>>)
    ensures |r| == |paths| && forall i :: 0 <= i < |r| ==> r[i] == Op(paths[i], state)
  {
    seq(|paths|, i requires 0 <= i < |paths| => Op(paths[i], state))
  }

  lemma {:induction false} InsertAllAppend(m: PathMap, a: seq<Op<Bytes>>, b: seq<Op<Bytes>>)
    ensures InsertAll(m, a + b) == InsertAll(InsertAll(m, a), b)
    decreases |b|
  {
    if b == [] {
      assert a + b == a;
    } else {
      var n := |b| - 1;
      InsertAllAppend(m, a, b[..n]);
      assert (a + b)[..|a + b| - 1] == a + b[..n];
    }
  }
}
