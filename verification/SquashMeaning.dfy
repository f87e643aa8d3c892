/**
 What squashing means (peimage/src/squash.rs): which entries the pass from the top down hands on, and when
 they are those of the layers applied from the bottom up.
 */
module SquashMeaning {
  import opened Bytes
  import opened Paths
  import opened RawPaths
  import opened Deletions
  import opened OrderedLookup
  import opened Squash
  import opened SquashTree
  import opened SquashIndex

  // ---------- keys and places ----------

  lemma TrimPlace(p: Bytes)
    ensures PlaceOf(Trim(p)) == PlaceOf(p)
  {
    hide PlaceOf;
    if Trim(p) != p {
      assert p == Trim(p) + [SLASH] + [];
      PlaceJoin(Trim(p), []);
      PlaceOfName([]);
    }
  }

  lemma BelowPlace(p: Bytes, k: Bytes)
    requires Below(p, k)
    ensures PlaceOf(k) <= PlaceOf(p)
  {
    hide PlaceOf;
    var rest := p[|k| + 1..];
    assert p == k + [SLASH] + rest;
    PlaceJoin(k, rest);
  }

  /** The last component, if another comes before it, is a name or "..". */
  predicate Tidy(path: Bytes) {
    var p := Trim(path);
    NameStart(p) > 0 ==> NamePlace(p[NameStart(p)..]) != []
  }

  lemma TidyBelow(path: Bytes, k: Bytes)
    requires Tidy(path) && Below(Trim(path), k)
    ensures PlaceOf(k) < PlaceOf(path)
  {
    hide PlaceOf, NameStart;
    var p := Trim(path);
    var n := NameStart(p);
    TrimPlace(path);
    SlashBefore(p, |k|);
    var dir, name := p[..n - 1], p[n..];
    assert p == dir + [SLASH] + name;
    PlaceJoin(dir, name);
    PlaceOfName(name);
    if dir != k {
      assert k == dir[..|k|] && dir[|k|] == SLASH;
      BelowPlace(dir, k);
    }
  }

  lemma SlashBefore(p: Bytes, i: nat)
    requires i < |p| && p[i] == SLASH
    ensures i < NameStart(p)
  {
    var n := NameStart(p);
    forall j | n <= j < |p| ensures p[j] != SLASH { assert p[n..][j - n] == p[j]; }
  }

  // ---------- no visible entry is dropped ----------

  /** Some marker of a higher layer removes the place. */
  ghost predicate RemovedAbove(layers: seq<Layer>, i: nat, w: Place) {
    exists k, l :: Pos(layers, k, l) && k > i && Removes(layers[k][l], w)
  }

  lemma HidersRemove(layers: seq<Layer>, i: nat, q: Bytes, w: Place)
    ensures WhiteoutAbove(layers, i, q) && PlaceOf(q) <= w ==> RemovedAbove(layers, i, w)
    ensures OpaqueAbove(layers, i, q) && PlaceOf(q) < w ==> RemovedAbove(layers, i, w)
  {
    hide Classify, PlaceOf, Trim, MarkOf;
    if WhiteoutAbove(layers, i, q) && PlaceOf(q) <= w {
      var k :| i < k < |layers| && WhiteoutIn(layers[k], |layers[k]|, q);
      var l :| 0 <= l < |layers[k]| && Classify(layers[k][l].path).HidesPath?
                && Trim(Classify(layers[k][l].path).path) == q;
      KindRemoves(layers[k][l], w);
      assert Pos(layers, k, l) && Removes(layers[k][l], w);
    }
    if OpaqueAbove(layers, i, q) && PlaceOf(q) < w {
      var k :| i < k < |layers| && OpaqueIn(layers[k], |layers[k]|, q);
      var l :| 0 <= l < |layers[k]| && Classify(layers[k][l].path).HidesBelow?
                && Trim(Classify(layers[k][l].path).path) == q;
      KindRemoves(layers[k][l], w);
      assert Pos(layers, k, l) && Removes(layers[k][l], w);
    }
  }

  lemma KindRemoves(e: Entry, w: Place)
    ensures var kind := Classify(e.path);
      && (kind.HidesPath? ==> (Removes(e, w) <==> PlaceOf(Trim(kind.path)) <= w))
      && (kind.HidesBelow? ==> (Removes(e, w) <==> PlaceOf(Trim(kind.path)) < w))
  {
    hide Classify, PlaceOf, Trim, MarkOf;
    MarkersRecognized(e.path);
    var kind := Classify(e.path);
    if !kind.Node? { TrimPlace(kind.path); }
  }

  lemma VisibleNotRemoved(layers: seq<Layer>, i: nat, j: nat)
    requires Pos(layers, i, j) && Visible(layers, i, j)
    ensures !RemovedAbove(layers, i, PlaceOf(layers[i][j].path))
  {
    hide Removes, Replaces, IsNode;
    var w := PlaceOf(layers[i][j].path);
    forall k, l | Pos(layers, k, l) && k > i ensures !Removes(layers[k][l], w) {
      assert !Covers(layers, k, l, i, j);
    }
  }

  /** An earlier entry of the same layer was handed on under the very bytes of this one's path. */
  ghost predicate Twin(layers: seq<Layer>, i: nat, j: nat)
    requires Pos(layers, i, j)
  {
    exists l :: 0 <= l < j && i >= 1 && Emits(layers, i, l) && layers[i][l].path == Trim(layers[i][j].path)
  }

  lemma VisibleEmittedBefore(layers: seq<Layer>, i: nat, j: nat)
    requires Pos(layers, i, j) && Visible(layers, i, j) && EmittedBefore(layers, i, j, Trim(layers[i][j].path))
    ensures Twin(layers, i, j)
  {
    hide IsDeleted, At, Trim, PlaceOf, MarkOf;
    var p := Trim(layers[i][j].path);
    var k, l :| Pos(layers, k, l) && k >= 1 && Before(k, l, i, j) && Emits(layers, k, l) && layers[k][l].path == p;
    TrimPlace(layers[i][j].path);
    assert !Covers(layers, k, l, i, j);
    assert k == i;
  }

  /** An opaque directory above is the entry's own place, written with more behind it. */
  ghost predicate SelfOpaque(layers: seq<Layer>, i: nat, path: Bytes) {
    exists q :: OpaqueAbove(layers, i, q) && Below(Trim(path), q) && PlaceOf(q) == PlaceOf(path)
  }

  /**
   When an entry that no marker above removes is dropped: the bytes of its path, without a trailing slash,
   were handed on before, or its path names an opaque directory in a roundabout way.
   */
  lemma DroppedOnlyIf(layers: seq<Layer>, i: nat, j: nat)
    requires Pos(layers, i, j) && IsNode(layers[i][j]) && !RemovedAbove(layers, i, PlaceOf(layers[i][j].path))
    requires !Emits(layers, i, j)
    ensures EmittedBefore(layers, i, j, Trim(layers[i][j].path)) || SelfOpaque(layers, i, layers[i][j].path)
  {
    hide IsDeleted, Classify, Removes, Exact, Under, At, Below, RemovedAbove, Trim, PlaceOf, WhiteoutAbove, OpaqueAbove;
    var path, m := layers[i][j].path, At(layers, i, j).entries;
    var p := Trim(path);
    LookupSound(m, path);
    TrimPlace(path);
    if Exact(m, p) {
      IndexIs(layers, i, j, p);
      HidersRemove(layers, i, p, PlaceOf(path));
    } else {
      var k :| Under(m, k) && Below(p, k);
      IndexIs(layers, i, j, k);
      BelowPlace(p, k);
      HidersRemove(layers, i, k, PlaceOf(path));
    }
  }

  lemma TidyNotOpaque(layers: seq<Layer>, i: nat, path: Bytes)
    requires Tidy(path)
    ensures !SelfOpaque(layers, i, path)
  {
    hide OpaqueAbove, PlaceOf, Below, Trim, Tidy;
    forall q | Below(Trim(path), q) ensures PlaceOf(q) != PlaceOf(path) { TidyBelow(path, q); }
  }

  /** An entry that no marker removes is dropped exactly if the bytes of its trimmed path were handed on before. */
  lemma DroppedIfSeen(layers: seq<Layer>, i: nat, j: nat)
    requires Pos(layers, i, j) && IsNode(layers[i][j]) && !RemovedAbove(layers, i, PlaceOf(layers[i][j].path))
    requires Tidy(layers[i][j].path)
    ensures !Emits(layers, i, j) <==> EmittedBefore(layers, i, j, Trim(layers[i][j].path))
  {
    hide IsDeleted, At, Trim, PlaceOf, Tidy, WhiteoutAbove, OpaqueAbove, RemovedAbove, EmittedBefore, Exact, Under;
    var path := layers[i][j].path;
    if !Emits(layers, i, j) {
      DroppedOnlyIf(layers, i, j);
      TidyNotOpaque(layers, i, path);
    }
    if EmittedBefore(layers, i, j, Trim(path)) {
      IndexIs(layers, i, j, Trim(path));
      Deletions.LookupExact(At(layers, i, j).entries, path);
    }
  }

  /** A visible entry is dropped only for a twin in its own layer or a roundabout path; for all layers. */
  lemma LostOnlyIf(layers: seq<Layer>, i: nat, j: nat)
    requires Pos(layers, i, j) && Visible(layers, i, j) && !Emits(layers, i, j)
    ensures Twin(layers, i, j) || SelfOpaque(layers, i, layers[i][j].path)
  {
    hide IsDeleted, At, Trim, PlaceOf, SelfOpaque, Twin, EmittedBefore, RemovedAbove;
    VisibleNotRemoved(layers, i, j);
    DroppedOnlyIf(layers, i, j);
    if EmittedBefore(layers, i, j, Trim(layers[i][j].path)) { VisibleEmittedBefore(layers, i, j); }
  }

  /** No layer has two entries for one place, as the specification demands of layers. */
  ghost predicate Changesets(layers: seq<Layer>) {
    forall i, j, l ::
      Pos(layers, i, j) && Pos(layers, i, l) && j != l && IsNode(layers[i][j]) && IsNode(layers[i][l]) ==>
      PlaceOf(layers[i][j].path) != PlaceOf(layers[i][l].path)
  }

  lemma NoTwin(layers: seq<Layer>, i: nat, j: nat)
    requires Changesets(layers) && Pos(layers, i, j) && IsNode(layers[i][j])
    ensures !Twin(layers, i, j)
  {
    hide IsDeleted, At, Trim, PlaceOf, MarkOf;
    TrimPlace(layers[i][j].path);
    forall l | 0 <= l < j && Emits(layers, i, l) ensures layers[i][l].path != Trim(layers[i][j].path) {
      assert Pos(layers, i, l);
    }
  }

  lemma VisibleIsNode(layers: seq<Layer>, i: nat, j: nat)
    requires Pos(layers, i, j) && Visible(layers, i, j)
    ensures IsNode(layers[i][j])
  {
  }

  /** No visible entry is dropped; markers of its own layer in particular do not touch it. */
  lemma VisibleIsEmitted(layers: seq<Layer>, i: nat, j: nat)
    requires Changesets(layers) && Pos(layers, i, j) && Visible(layers, i, j) && Tidy(layers[i][j].path)
    ensures Emits(layers, i, j)
  {
    hide IsDeleted, Visible, Changesets, Tidy, Twin, SelfOpaque, At, IsNode;
    VisibleIsNode(layers, i, j);
    NoTwin(layers, i, j);
    TidyNotOpaque(layers, i, layers[i][j].path);
    if !Emits(layers, i, j) {
      LostOnlyIf(layers, i, j);
      assert false;
    }
  }

  // ---------- when the pass hands on exactly what is visible ----------

  /** A visible entry with this path comes before position (i, j), in a layer above the bottom. */
  ghost predicate VisibleBefore(layers: seq<Layer>, i: nat, j: nat, q: Bytes) {
    exists k, l :: Pos(layers, k, l) && k >= 1 && Before(k, l, i, j) && Visible(layers, k, l) && layers[k][l].path == q
  }

  /** The paths that matter at position (i, j): visible so far, or hidden by a layer above. */
  ghost function Marked(layers: seq<Layer>, i: nat, j: nat): iset<Bytes> {
    iset q | VisibleBefore(layers, i, j, q) || WhiteoutAbove(layers, i, q) || OpaqueAbove(layers, i, q)
  }

  /** The path is marked itself, or a directory above it is hidden with nothing marked between, in byte order. */
  ghost predicate Found(layers: seq<Layer>, i: nat, j: nat, p: Bytes) {
    || VisibleBefore(layers, i, j, p) || WhiteoutAbove(layers, i, p)
    || exists k :: (WhiteoutAbove(layers, i, k) || OpaqueAbove(layers, i, k)) && Below(p, k)
                   && NothingBetween(Marked(layers, i, j), k, p)
  }

  /** A condition on the layers alone: an entry is covered exactly if its trimmed path is found. */
  ghost predicate Clear(layers: seq<Layer>) {
    forall i, j :: Pos(layers, i, j) && IsNode(layers[i][j]) ==> ClearAt(layers, i, j)
  }

  ghost predicate ClearAt(layers: seq<Layer>, i: nat, j: nat)
    requires Pos(layers, i, j)
  {
    Visible(layers, i, j) <==> !Found(layers, i, j, Trim(layers[i][j].path))
  }

  /** The pass treats this entry as the layers applied from the bottom up do. */
  ghost predicate Agrees(layers: seq<Layer>, i: nat, j: nat)
    requires Pos(layers, i, j)
  {
    Emits(layers, i, j) <==> Visible(layers, i, j)
  }

  ghost predicate AgreesSoFar(layers: seq<Layer>, i: nat, j: nat) {
    forall k, l :: Pos(layers, k, l) && Before(k, l, i, j) ==> Agrees(layers, k, l)
  }

  lemma EmittedOrVisible(layers: seq<Layer>, i: nat, j: nat, q: Bytes)
    requires AgreesSoFar(layers, i, j)
    ensures EmittedBefore(layers, i, j, q) <==> VisibleBefore(layers, i, j, q)
  {
    hide Emits, Visible;
    if k, l :| Pos(layers, k, l) && k >= 1 && Before(k, l, i, j) && Visible(layers, k, l) && layers[k][l].path == q {
      assert Agrees(layers, k, l);
    }
    if k, l :| Pos(layers, k, l) && k >= 1 && Before(k, l, i, j) && Emits(layers, k, l) && layers[k][l].path == q {
      assert Agrees(layers, k, l);
    }
  }

  /** As long as pass and reference agree, the lookup finds exactly what the condition says. */
  lemma ProbeIs(layers: seq<Layer>, i: nat, j: nat)
    requires Pos(layers, i, j) && IsNode(layers[i][j]) && AgreesSoFar(layers, i, j)
    ensures !Emits(layers, i, j) <==> Found(layers, i, j, Trim(layers[i][j].path))
  {
    hide IsDeleted, IsNode, At, Below, Trim, WhiteoutAbove, OpaqueAbove, VisibleBefore, EmittedBefore, AgreesSoFar,
      NothingBetween;
    var path, m := layers[i][j].path, At(layers, i, j).entries;
    forall q
      ensures Exact(m, q) <==> VisibleBefore(layers, i, j, q) || WhiteoutAbove(layers, i, q)
      ensures Under(m, q) <==> WhiteoutAbove(layers, i, q) || OpaqueAbove(layers, i, q)
      ensures q in Stored(m) <==> q in Marked(layers, i, j)
    {
      IndexIs(layers, i, j, q);
      EmittedOrVisible(layers, i, j, q);
    }
    assert Stored(m) == Marked(layers, i, j);
    Deletions.LookupExact(m, path);
  }

  lemma {:induction false} ClearMeansAgrees(layers: seq<Layer>, i: nat, j: nat)
    requires Clear(layers) && Pos(layers, i, j)
    ensures Agrees(layers, i, j)
    decreases |layers| - i, j
  {
    hide IsNode, IsDeleted, Found, At, Trim, Covers;
    forall k, l | Pos(layers, k, l) && Before(k, l, i, j) ensures Agrees(layers, k, l) {
      ClearMeansAgrees(layers, k, l);
    }
    if IsNode(layers[i][j]) {
      ProbeIs(layers, i, j);
      assert ClearAt(layers, i, j);
    }
  }

  lemma AgreesMeansClear(layers: seq<Layer>)
    requires forall k, l :: Pos(layers, k, l) ==> Agrees(layers, k, l)
    ensures Clear(layers)
  {
    hide IsNode, Emits, Visible, Found, Trim;
    forall i, j | Pos(layers, i, j) && IsNode(layers[i][j]) ensures ClearAt(layers, i, j) {
      ProbeIs(layers, i, j);
      assert Agrees(layers, i, j);
    }
  }

  /** Tidy layers with one entry for a place are clear as soon as every covered entry is found. */
  lemma ClearIfCoveredFound(layers: seq<Layer>)
    requires Changesets(layers) && (forall i, j :: Pos(layers, i, j) ==> Tidy(layers[i][j].path))
    requires forall i, j :: Pos(layers, i, j) && IsNode(layers[i][j]) && !Visible(layers, i, j) ==>
      Found(layers, i, j, Trim(layers[i][j].path))
    ensures Clear(layers)
  {
    hide Emits, Visible, Found, Trim, Changesets, Tidy, IsNode;
    forall i, j | Pos(layers, i, j) ensures Agrees(layers, i, j) { CoveredFoundAgrees(layers, i, j); }
    AgreesMeansClear(layers);
  }

  lemma {:induction false} CoveredFoundAgrees(layers: seq<Layer>, i: nat, j: nat)
    requires Changesets(layers) && (forall k, l :: Pos(layers, k, l) ==> Tidy(layers[k][l].path)) && Pos(layers, i, j)
    requires forall k, l :: Pos(layers, k, l) && IsNode(layers[k][l]) && !Visible(layers, k, l) ==>
      Found(layers, k, l, Trim(layers[k][l].path))
    ensures Agrees(layers, i, j)
    decreases |layers| - i, j
  {
    hide IsNode, IsDeleted, Found, At, Trim, Covers, Changesets, Tidy;
    forall k, l | Pos(layers, k, l) && Before(k, l, i, j) ensures Agrees(layers, k, l) {
      CoveredFoundAgrees(layers, k, l);
    }
    if IsNode(layers[i][j]) {
      ProbeIs(layers, i, j);
      if Visible(layers, i, j) { VisibleIsEmitted(layers, i, j); }
    }
  }

  // ---------- what comes out ----------

  /** The places in the layers of the entries handed on before position (i, j), in order. */
  ghost function Handed(layers: seq<Layer>, i: nat, j: nat): seq<Spot>
    requires i < |layers| && j <= |layers[i]|
    decreases |layers| - i, j
  {
    if j > 0 then Handed(layers, i, j - 1) + (if Emits(layers, i, j - 1) then [Spot(i, j - 1)] else [])
    else if i + 1 < |layers| then Handed(layers, i + 1, |layers[i + 1]|)
    else []
  }

  ghost function AllHanded(layers: seq<Layer>): seq<Spot> {
    if layers == [] then [] else Handed(layers, 0, |layers[0]|)
  }

  /** `out` lists the entries at the spots. */
  ghost predicate Lists(layers: seq<Layer>, out: seq<Entry>, spots: seq<Spot>) {
    |out| == |spots| && forall a :: 0 <= a < |spots| ==> ListsAt(layers, out[a], spots[a])
  }

  predicate ListsAt(layers: seq<Layer>, e: Entry, s: Spot) {
    Pos(layers, s.layer, s.index) && layers[s.layer][s.index] == e
  }

  /** What reaches the callback is the list of those entries. */
  lemma {:induction false} OutIs(layers: seq<Layer>, i: nat, j: nat)
    requires i < |layers| && j <= |layers[i]|
    ensures Lists(layers, At(layers, i, j).out, Handed(layers, i, j))
    decreases |layers| - i, j
  {
    hide IsDeleted, Classify, Insert, InsertAll, IsNode;
    if j > 0 {
      OutIs(layers, i, j - 1);
      NodeIff(layers[i][j - 1]);
    } else if i + 1 < |layers| {
      OutIs(layers, i + 1, |layers[i + 1]|);
    }
  }

  lemma {:induction false} HandedIs(layers: seq<Layer>, i: nat, j: nat, s: Spot)
    requires i < |layers| && j <= |layers[i]|
    ensures s in Handed(layers, i, j) <==>
      Pos(layers, s.layer, s.index) && Before(s.layer, s.index, i, j) && Emits(layers, s.layer, s.index)
    decreases |layers| - i, j
  {
    hide Emits;
    if j > 0 {
      HandedIs(layers, i, j - 1, s);
    } else if i + 1 < |layers| {
      HandedIs(layers, i + 1, |layers[i + 1]|, s);
    }
  }

  /** Each entry is handed on once at most. */
  lemma {:induction false} HandedOnce(layers: seq<Layer>, i: nat, j: nat)
    requires i < |layers| && j <= |layers[i]|
    ensures forall a, b :: 0 <= a < b < |Handed(layers, i, j)| ==> Handed(layers, i, j)[a] != Handed(layers, i, j)[b]
    decreases |layers| - i, j
  {
    hide Emits;
    if j > 0 {
      HandedOnce(layers, i, j - 1);
      HandedIs(layers, i, j - 1, Spot(i, j - 1));
    } else if i + 1 < |layers| {
      HandedOnce(layers, i + 1, |layers[i + 1]|);
    }
  }

  lemma AllHandedAre(layers: seq<Layer>, s: Spot)
    ensures s in AllHanded(layers) <==> Pos(layers, s.layer, s.index) && Emits(layers, s.layer, s.index)
  {
    hide Emits, Handed;
    if layers != [] { HandedIs(layers, 0, |layers[0]|, s); }
  }

  lemma AppliedAre(layers: seq<Layer>, s: Spot)
    ensures s in BottomUp(layers, |layers|).Values <==>
      Pos(layers, s.layer, s.index) && Visible(layers, s.layer, s.index)
  {
    hide Visible, BottomUp, PlaceOf;
    var tree := BottomUp(layers, |layers|);
    if s in tree.Values {
      var w :| w in tree && tree[w] == s;
      BottomUpIsVisible(layers, w, s);
    }
    if Pos(layers, s.layer, s.index) && Visible(layers, s.layer, s.index) {
      var w := PlaceOf(layers[s.layer][s.index].path);
      BottomUpIsVisible(layers, w, s);
      assert tree[w] == s;
    }
  }

  /** The entries handed on are those of the applied tree. */
  ghost predicate SameAsBottomUp(layers: seq<Layer>) {
    forall s :: s in AllHanded(layers) <==> s in BottomUp(layers, |layers|).Values
  }

  /** Squashing from the top down gives what applying from the bottom up gives, if and only if the layers are clear. */
  lemma SquashIffClear(layers: seq<Layer>)
    ensures SameAsBottomUp(layers) <==> Clear(layers)
  {
    hide Emits, Visible, Clear, AllHanded, BottomUp;
    if Clear(layers) {
      forall s ensures s in AllHanded(layers) <==> s in BottomUp(layers, |layers|).Values {
        AllHandedAre(layers, s);
        AppliedAre(layers, s);
        if Pos(layers, s.layer, s.index) { ClearMeansAgrees(layers, s.layer, s.index); }
      }
    }
    if SameAsBottomUp(layers) {
      forall k, l | Pos(layers, k, l) ensures Agrees(layers, k, l) {
        AllHandedAre(layers, Spot(k, l));
        AppliedAre(layers, Spot(k, l));
      }
      AgreesMeansClear(layers);
    }
  }

  /** Everything in the applied tree is handed on, whatever the layers remove and however they overlap. */
  lemma NothingLost(layers: seq<Layer>, w: Place)
    requires Changesets(layers) && (forall i, j :: Pos(layers, i, j) ==> Tidy(layers[i][j].path))
    requires w in BottomUp(layers, |layers|)
    ensures BottomUp(layers, |layers|)[w] in AllHanded(layers)
  {
    hide Emits, Visible, BottomUp, Changesets, Tidy, AllHanded, PlaceOf;
    var s := BottomUp(layers, |layers|)[w];
    BottomUpIsVisible(layers, w, s);
    AllHandedAre(layers, s);
    VisibleIsEmitted(layers, s.layer, s.index);
  }

  /** From clear layers no place comes out twice. */
  lemma ClearOutDistinct(layers: seq<Layer>, s: Spot, t: Spot)
    requires Clear(layers) && s in AllHanded(layers) && t in AllHanded(layers) && s != t
    ensures Pos(layers, s.layer, s.index) && Pos(layers, t.layer, t.index)
    ensures PlaceOf(layers[s.layer][s.index].path) != PlaceOf(layers[t.layer][t.index].path)
  {
    hide Emits, Visible, Clear, AllHanded, BottomUp, PlaceOf;
    AllHandedAre(layers, s);
    AllHandedAre(layers, t);
    ClearMeansAgrees(layers, s.layer, s.index);
    ClearMeansAgrees(layers, t.layer, t.index);
    BottomUpIsVisible(layers, PlaceOf(layers[s.layer][s.index].path), s);
    BottomUpIsVisible(layers, PlaceOf(layers[t.layer][t.index].path), t);
  }

  /** A path once handed on is never handed on again, repeats inside the bottom layer apart. */
  lemma EmittedOnce(layers: seq<Layer>, i: nat, j: nat, k: nat, l: nat)
    requires Pos(layers, i, j) && Emits(layers, i, j) && Pos(layers, k, l) && Emits(layers, k, l)
    requires layers[i][j].path == layers[k][l].path && Trim(layers[i][j].path) == layers[i][j].path
    ensures (i, j) == (k, l) || i == k == 0
  {
    hide IsDeleted, Classify, At;
    if (i, j) != (k, l) && !(i == k == 0) {
      if Before(k, l, i, j) {
        EmittedHides(layers, k, l, i, j);
      } else {
        EmittedHides(layers, i, j, k, l);
      }
      assert false;
    }
  }

  lemma EmittedHides(layers: seq<Layer>, k: nat, l: nat, i: nat, j: nat)
    requires Pos(layers, i, j) && Pos(layers, k, l) && k >= 1 && Before(k, l, i, j) && Emits(layers, k, l)
    requires layers[i][j].path == layers[k][l].path && Trim(layers[i][j].path) == layers[i][j].path
    ensures !Emits(layers, i, j)
  {
    hide IsDeleted, Classify, At, Exact, Under, WhiteoutAbove, OpaqueAbove;
    var p := layers[i][j].path;
    IndexIs(layers, i, j, p);
    Deletions.LookupExact(At(layers, i, j).entries, p);
  }

  function NodeCount(layer: Layer, j: nat): nat
    requires j <= |layer|
  {
    if j == 0 then 0 else NodeCount(layer, j - 1) + (if IsNode(layer[j - 1]) then 1 else 0)
  }

  function NodesAbove(layers: seq<Layer>, i: nat): nat
    requires i <= |layers|
    decreases |layers| - i
  {
    if i == |layers| then 0 else NodesAbove(layers, i + 1) + NodeCount(layers[i], |layers[i]|)
  }

  /** Every entry that is not a marker is either handed on or counted under one reason. */
  lemma {:induction false} AllAccounted(layers: seq<Layer>, i: nat, j: nat)
    requires i < |layers| && j <= |layers[i]|
    ensures |At(layers, i, j).out| + At(layers, i, j).stats.Total()
            == NodesAbove(layers, i + 1) + NodeCount(layers[i], j)
    decreases |layers| - i, j
  {
    hide IsDeleted, Classify, Insert, InsertAll, IsNode;
    if j > 0 {
      AllAccounted(layers, i, j - 1);
      NodeIff(layers[i][j - 1]);
    } else if i + 1 < |layers| {
      AllAccounted(layers, i + 1, |layers[i + 1]|);
    }
  }
}
