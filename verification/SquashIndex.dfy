/**
 What the deletion index of the squasher (peimage/src/squash.rs) holds at every entry of the pass from
 the top down.
 */
module SquashIndex {
  import opened Bytes
  import opened Paths
  import opened RawPaths
  import opened Deletions
  import opened OrderedLookup
  import opened Squash
  import opened SquashTree

  /** Entry `j` of layer `i` reaches the callback. */
  ghost predicate Emits(layers: seq<Layer>, i: nat, j: nat)
    requires Pos(layers, i, j)
  {
    IsNode(layers[i][j]) && IsDeleted(At(layers, i, j).entries, layers[i][j].path).None?
  }

  /** Position (k, l) comes before (i, j) in the pass. */
  predicate Before(k: int, l: int, i: int, j: int) {
    k > i || (k == i && l < j)
  }

  /** The path was handed on before position (i, j), from a layer that stores what it hands on. */
  ghost predicate EmittedBefore(layers: seq<Layer>, i: nat, j: nat, q: Bytes) {
    exists k, l :: Pos(layers, k, l) && k >= 1 && Before(k, l, i, j) && Emits(layers, k, l) && layers[k][l].path == q
  }

  ghost predicate WhiteoutIn(layer: Layer, n: nat, q: Bytes)
    requires n <= |layer|
  {
    exists l :: 0 <= l < n && Classify(layer[l].path).HidesPath? && Trim(Classify(layer[l].path).path) == q
  }

  ghost predicate OpaqueIn(layer: Layer, n: nat, q: Bytes)
    requires n <= |layer|
  {
    exists l :: 0 <= l < n && Classify(layer[l].path).HidesBelow? && Trim(Classify(layer[l].path).path) == q
  }

  /** A layer above layer `i` has a whiteout of the path. */
  ghost predicate WhiteoutAbove(layers: seq<Layer>, i: nat, q: Bytes) {
    exists k :: i < k < |layers| && WhiteoutIn(layers[k], |layers[k]|, q)
  }

  ghost predicate OpaqueAbove(layers: seq<Layer>, i: nat, q: Bytes) {
    exists k :: i < k < |layers| && OpaqueIn(layers[k], |layers[k]|, q)
  }

  lemma {:induction false} QueueIs(layers: seq<Layer>, i: nat, j: nat, q: Bytes)
    requires 1 <= i < |layers| && j <= |layers[i]|
    ensures q in At(layers, i, j).whiteouts <==> WhiteoutIn(layers[i], j, q)
    ensures q in At(layers, i, j).opaques <==> OpaqueIn(layers[i], j, q)
    decreases |layers| - i, j
  {
    hide IsDeleted, Insert, Classify;
    if j > 0 {
      QueueIs(layers, i, j - 1, q);
    } else {
      StartsEmpty(layers, i + 1);
    }
  }

  lemma StartsEmpty(layers: seq<Layer>, i: nat)
    requires 1 <= i <= |layers|
    ensures Squashed(layers, i).whiteouts == [] && Squashed(layers, i).opaques == []
  {
  }

  /** At every point of the pass the index denotes what was handed on and what the layers above hide. */
  lemma {:induction false} IndexIs(layers: seq<Layer>, i: nat, j: nat, q: Bytes)
    requires i < |layers| && j <= |layers[i]|
    ensures Exact(At(layers, i, j).entries, q) <==> EmittedBefore(layers, i, j, q) || WhiteoutAbove(layers, i, q)
    ensures Under(At(layers, i, j).entries, q) <==> WhiteoutAbove(layers, i, q) || OpaqueAbove(layers, i, q)
    decreases |layers| - i, j
  {
    hide IsDeleted, Classify, Exact, Under, At;
    if j > 0 {
      IndexIs(layers, i, j - 1, q);
      IndexStep(layers, i, j - 1, q);
      EmittedStep(layers, i, j - 1, q);
    } else if i + 1 == |layers| {
      IndexStart(layers, i, q);
    } else {
      var n := |layers[i + 1]|;
      IndexIs(layers, i + 1, n, q);
      IndexNextLayer(layers, i, q);
      EmittedNextLayer(layers, i, q);
    }
  }

  lemma IndexStep(layers: seq<Layer>, i: nat, j: nat, q: Bytes)
    requires Pos(layers, i, j)
    ensures var e := layers[i][j];
      && (Exact(At(layers, i, j + 1).entries, q) <==>
            Exact(At(layers, i, j).entries, q) || (i >= 1 && Emits(layers, i, j) && e.path == q))
      && (Under(At(layers, i, j + 1).entries, q) <==> Under(At(layers, i, j).entries, q))
  {
    hide IsDeleted, Classify, IsNode;
    NodeIff(layers[i][j]);
  }

  lemma NodeIff(e: Entry)
    ensures IsNode(e) <==> Classify(e.path).Node?
  {
    MarkersRecognized(e.path);
  }

  lemma EmittedStep(layers: seq<Layer>, i: nat, j: nat, q: Bytes)
    requires Pos(layers, i, j)
    ensures EmittedBefore(layers, i, j + 1, q) <==>
      EmittedBefore(layers, i, j, q) || (i >= 1 && Emits(layers, i, j) && layers[i][j].path == q)
  {
    hide Emits;
    if k, l :| Pos(layers, k, l) && k >= 1 && Before(k, l, i, j + 1) && Emits(layers, k, l) && layers[k][l].path == q {
      assert Before(k, l, i, j) || (k == i && l == j);
    }
    if k, l :| Pos(layers, k, l) && k >= 1 && Before(k, l, i, j) && Emits(layers, k, l) && layers[k][l].path == q {
      assert Before(k, l, i, j + 1);
    }
    if i >= 1 && Emits(layers, i, j) && layers[i][j].path == q {
      assert Before(i, j, i, j + 1);
    }
  }

  lemma IndexStart(layers: seq<Layer>, i: nat, q: Bytes)
    requires i + 1 == |layers|
    ensures !Exact(At(layers, i, 0).entries, q) && !Under(At(layers, i, 0).entries, q)
    ensures !EmittedBefore(layers, i, 0, q) && !WhiteoutAbove(layers, i, q) && !OpaqueAbove(layers, i, q)
  {
    hide Emits;
  }

  lemma IndexNextLayer(layers: seq<Layer>, i: nat, q: Bytes)
    requires i + 1 < |layers|
    ensures var n := |layers[i + 1]|; var before := At(layers, i + 1, n).entries; var after := At(layers, i, 0).entries;
      && (Exact(after, q) <==> Exact(before, q) || WhiteoutIn(layers[i + 1], n, q))
      && (Under(after, q) <==> Under(before, q) || WhiteoutIn(layers[i + 1], n, q) || OpaqueIn(layers[i + 1], n, q))
  {
    hide Process, Exact, Under, WhiteoutIn, OpaqueIn, InsertAll;
    var n := |layers[i + 1]|;
    var run := At(layers, i + 1, n);
    var ops := Ops(run.whiteouts, Whiteout) + Ops(run.opaques, Opaque);
    assert At(layers, i, 0).entries == InsertAll(run.entries, ops);
    InsertsJoin(run.entries, ops, q);
    QueueIs(layers, i + 1, n, q);
    QueuedOps(run.whiteouts, run.opaques, q);
  }

  lemma QueuedOps(whiteouts: seq<Bytes>, opaques: seq<Bytes>, q: Bytes)
    ensures var ops := Ops(whiteouts, Whiteout) + Ops(opaques, Opaque);
      && (SomeSelf(ops, q) <==> q in whiteouts)
      && (SomeBelow(ops, q) <==> q in whiteouts || q in opaques)
  {
    var a, b := Ops(whiteouts, Whiteout), Ops(opaques, Opaque);
    var ops := a + b;
    if q in whiteouts {
      var i :| 0 <= i < |whiteouts| && whiteouts[i] == q;
      assert ops[i] == a[i];
    }
    if q in opaques {
      var i :| 0 <= i < |opaques| && opaques[i] == q;
      assert ops[|a| + i] == b[i];
    }
  }

  lemma EmittedNextLayer(layers: seq<Layer>, i: nat, q: Bytes)
    requires i + 1 < |layers|
    ensures EmittedBefore(layers, i, 0, q) <==> EmittedBefore(layers, i + 1, |layers[i + 1]|, q)
    ensures WhiteoutAbove(layers, i, q) <==>
      WhiteoutIn(layers[i + 1], |layers[i + 1]|, q) || WhiteoutAbove(layers, i + 1, q)
    ensures OpaqueAbove(layers, i, q) <==> OpaqueIn(layers[i + 1], |layers[i + 1]|, q) || OpaqueAbove(layers, i + 1, q)
  {
    hide Emits, WhiteoutIn, OpaqueIn;
    if k, l :| Pos(layers, k, l) && k >= 1 && Before(k, l, i, 0) && Emits(layers, k, l) && layers[k][l].path == q {
      assert Before(k, l, i + 1, |layers[i + 1]|);
    }
    if k, l :| Pos(layers, k, l) && k >= 1 && Before(k, l, i + 1, |layers[i + 1]|) && Emits(layers, k, l)
               && layers[k][l].path == q {
      assert Before(k, l, i, 0);
    }
  }
}
