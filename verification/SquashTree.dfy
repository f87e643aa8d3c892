/**
 Applying layers from the bottom up, by the section "Whiteouts" of the OCI Image Layer Filesystem
 Changeset specification: the reference for the squasher (peimage/src/squash.rs), stated on places and not
 on the bytes of paths.
 */
module SquashTree {
  import opened Bytes
  import opened Paths
  import opened RawPaths
  import opened Squash

  predicate Pos(layers: seq<Layer>, i: int, j: int) {
    0 <= i < |layers| && 0 <= j < |layers[i]|
  }

  // ---------- applying layers from the bottom up ----------

  /** The entry is a file or directory, not a marker. */
  predicate IsNode(e: Entry) {
    MarkOf(PlaceOf(e.path)).Plain?
  }

  /** The marker `e` removes the place from the layers below its own. */
  predicate Removes(e: Entry, w: Place) {
    match MarkOf(PlaceOf(e.path))
    case RemovesAt(t) => t <= w
    case RemovesBelow(t) => t < w
    case Plain => false
  }

  /** Putting `e` takes away what was at the place: at its own, and below it unless it is a directory. */
  predicate Replaces(e: Entry, w: Place) {
    IsNode(e) && PlaceOf(e.path) <= w && (e.dir ==> PlaceOf(e.path) == w)
  }

  /** Where an entry stands in the layers. */
  datatype Spot = Spot(layer: nat, index: nat)

  ghost predicate RemovedBy(layer: Layer, w: Place) {
    exists j :: 0 <= j < |layer| && Removes(layer[j], w)
  }

  /** Reference: remove what the markers of layer `i` remove, then put its first `j` entries, one by one. */
  ghost function PutTo(tree: map<Place, Spot>, layer: Layer, i: nat, j: nat): map<Place, Spot>
    requires j <= |layer|
  {
    if j == 0 then map w | w in tree && !RemovedBy(layer, w) :: tree[w]
    else Put(PutTo(tree, layer, i, j - 1), layer[j - 1], Spot(i, j - 1))
  }

  function Put(tree: map<Place, Spot>, e: Entry, s: Spot): map<Place, Spot> {
    if IsNode(e) then (map w | w in tree && !Replaces(e, w) :: tree[w])[PlaceOf(e.path) := s] else tree
  }

  ghost function BottomUp(layers: seq<Layer>, n: nat): map<Place, Spot>
    requires n <= |layers|
  {
    if n == 0 then map[] else PutTo(BottomUp(layers, n - 1), layers[n - 1], n - 1, |layers[n - 1]|)
  }

  predicate MapsTo(tree: map<Place, Spot>, w: Place, s: Spot) {
    w in tree && tree[w] == s
  }

  // ---------- what is seen through the layers ----------

  /** Entry (k, l) is put after entry (i, j) when layers are applied. */
  predicate After(k: int, l: int, i: int, j: int) {
    k > i || (k == i && l > j)
  }

  /** Entry (k, l) takes entry (i, j) away: it removes it from a higher layer, or it replaces it. */
  predicate Covers(layers: seq<Layer>, k: int, l: int, i: int, j: int)
    requires Pos(layers, k, l) && Pos(layers, i, j)
  {
    var w := PlaceOf(layers[i][j].path);
    (k > i && Removes(layers[k][l], w)) || (After(k, l, i, j) && Replaces(layers[k][l], w))
  }

  ghost predicate Visible(layers: seq<Layer>, i: nat, j: nat)
    requires Pos(layers, i, j)
  {
    IsNode(layers[i][j]) && forall k, l :: Pos(layers, k, l) ==> !Covers(layers, k, l, i, j)
  }

  /** Entry (k, l) has an effect by the time `m` entries of layer `n` have been put. */
  predicate TakenBy(layers: seq<Layer>, n: nat, m: nat, k: int, l: int, s: Spot, w: Place)
    requires Pos(layers, k, l)
  {
    || (s.layer < k <= n && Removes(layers[k][l], w))
    || (After(k, l, s.layer, s.index) && After(n, m, k, l) && Replaces(layers[k][l], w))
  }

  /** The entry at `s` is put by then, at the place `w`. */
  predicate Standing(layers: seq<Layer>, n: nat, m: nat, w: Place, s: Spot) {
    && Pos(layers, s.layer, s.index) && After(n, m, s.layer, s.index)
    && IsNode(layers[s.layer][s.index]) && PlaceOf(layers[s.layer][s.index].path) == w
  }

  ghost predicate Seen(layers: seq<Layer>, n: nat, m: nat, w: Place, s: Spot) {
    && Standing(layers, n, m, w, s)
    && forall k, l :: Pos(layers, k, l) ==> !TakenBy(layers, n, m, k, l, s, w)
  }

  lemma {:induction false} PutIsSeen(layers: seq<Layer>, n: nat, m: nat, w: Place, s: Spot)
    requires n < |layers| && m <= |layers[n]|
    ensures MapsTo(PutTo(BottomUp(layers, n), layers[n], n, m), w, s) <==> Seen(layers, n, m, w, s)
    decreases n, m
  {
    hide Seen, Removes, Replaces, IsNode, MapsTo;
    if m > 0 {
      PutIsSeen(layers, n, m - 1, w, s);
      SeenStep(layers, n, m - 1, w, s);
      PutMaps(PutTo(BottomUp(layers, n), layers[n], n, m - 1), layers[n][m - 1], Spot(n, m - 1), w, s);
    } else if n > 0 {
      PutIsSeen(layers, n - 1, |layers[n - 1]|, w, s);
      SeenLayer(layers, n - 1, w, s);
      ClearedMaps(BottomUp(layers, n), layers[n], w, s);
    } else {
      SeenNone(layers, w, s);
      ClearedMaps(map[], layers[0], w, s);
      NoneMaps(w, s);
    }
  }

  lemma NoneMaps(w: Place, s: Spot)
    ensures !MapsTo(map[], w, s)
  {
  }

  lemma PutMaps(tree: map<Place, Spot>, e: Entry, at: Spot, w: Place, s: Spot)
    ensures MapsTo(Put(tree, e, at), w, s) <==>
      if IsNode(e) && PlaceOf(e.path) == w then s == at else MapsTo(tree, w, s) && !Replaces(e, w)
  {
  }

  lemma ClearedMaps(tree: map<Place, Spot>, layer: Layer, w: Place, s: Spot)
    ensures MapsTo(PutTo(tree, layer, 0, 0), w, s) <==> MapsTo(tree, w, s) && !RemovedBy(layer, w)
    ensures forall i: nat :: PutTo(tree, layer, i, 0) == PutTo(tree, layer, 0, 0)
  {
    hide RemovedBy;
  }

  lemma SeenStep(layers: seq<Layer>, n: nat, m: nat, w: Place, s: Spot)
    requires Pos(layers, n, m)
    ensures var e := layers[n][m]; Seen(layers, n, m + 1, w, s) <==>
      if IsNode(e) && PlaceOf(e.path) == w then s == Spot(n, m) else Seen(layers, n, m, w, s) && !Replaces(e, w)
  {
    hide Removes;
    var e := layers[n][m];
    if IsNode(e) && PlaceOf(e.path) == w {
      assert Seen(layers, n, m + 1, w, Spot(n, m));
      assert s != Spot(n, m) && Standing(layers, n, m + 1, w, s) ==> TakenBy(layers, n, m + 1, n, m, s, w);
    } else {
      assert Standing(layers, n, m + 1, w, s) <==> Standing(layers, n, m, w, s);
      if Standing(layers, n, m, w, s) { SeenOther(layers, n, m, w, s); }
    }
  }

  lemma SeenOther(layers: seq<Layer>, n: nat, m: nat, w: Place, s: Spot)
    requires Pos(layers, n, m) && Standing(layers, n, m, w, s)
    ensures Seen(layers, n, m + 1, w, s) <==> Seen(layers, n, m, w, s) && !Replaces(layers[n][m], w)
  {
    hide Removes, Replaces, IsNode;
    assert TakenBy(layers, n, m + 1, n, m, s, w) <== Replaces(layers[n][m], w);
    forall k, l | Pos(layers, k, l)
      ensures TakenBy(layers, n, m + 1, k, l, s, w)
              <==> TakenBy(layers, n, m, k, l, s, w) || (k == n && l == m && Replaces(layers[n][m], w))
    {
    }
  }

  lemma SeenLayer(layers: seq<Layer>, n: nat, w: Place, s: Spot)
    requires n + 1 < |layers|
    ensures Seen(layers, n + 1, 0, w, s) <==> Seen(layers, n, |layers[n]|, w, s) && !RemovedBy(layers[n + 1], w)
  {
    hide Removes, Replaces, IsNode;
    var m := |layers[n]|;
    assert Standing(layers, n + 1, 0, w, s) <==> Standing(layers, n, m, w, s);
    if Standing(layers, n, m, w, s) {
      forall k, l | Pos(layers, k, l)
        ensures TakenBy(layers, n + 1, 0, k, l, s, w)
                <==> TakenBy(layers, n, m, k, l, s, w) || (k == n + 1 && Removes(layers[k][l], w))
      {
      }
      if RemovedBy(layers[n + 1], w) {
        var l :| 0 <= l < |layers[n + 1]| && Removes(layers[n + 1][l], w);
        assert Pos(layers, n + 1, l);
      }
    }
  }

  lemma SeenNone(layers: seq<Layer>, w: Place, s: Spot)
    ensures !Seen(layers, 0, 0, w, s)
  {
  }

  /** Applying the layers gives each place the entry that is seen through what was put after it. */
  lemma BottomUpIsVisible(layers: seq<Layer>, w: Place, s: Spot)
    ensures MapsTo(BottomUp(layers, |layers|), w, s) <==>
      Pos(layers, s.layer, s.index) && Visible(layers, s.layer, s.index) && PlaceOf(layers[s.layer][s.index].path) == w
  {
    hide Removes, Replaces, IsNode, MapsTo, PutTo;
    var n := |layers| - 1;
    if n < 0 {
      NoneMaps(w, s);
    } else {
      PutIsSeen(layers, n, |layers[n]|, w, s);
      SeenIsVisible(layers, w, s);
    }
  }

  lemma SeenIsVisible(layers: seq<Layer>, w: Place, s: Spot)
    requires layers != []
    ensures var n := |layers| - 1; Seen(layers, n, |layers[n]|, w, s) <==>
      Pos(layers, s.layer, s.index) && Visible(layers, s.layer, s.index) && PlaceOf(layers[s.layer][s.index].path) == w
  {
    hide Removes, Replaces, IsNode;
    var n := |layers| - 1;
    var m := |layers[n]|;
    if Pos(layers, s.layer, s.index) && PlaceOf(layers[s.layer][s.index].path) == w {
      forall k, l | Pos(layers, k, l)
        ensures TakenBy(layers, n, m, k, l, s, w) <==> Covers(layers, k, l, s.layer, s.index)
      {
      }
    }
  }
}
