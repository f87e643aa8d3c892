/**
 What the squasher counts (peimage/src/squash.rs): for every entry it drops, the reason in terms of the layers
 above, and the counters as the numbers of entries dropped for each reason.
 */
module SquashStats {
  import opened Bytes
  import opened Paths
  import opened RawPaths
  import opened Deletions
  import opened OrderedLookup
  import opened Squash
  import opened SquashTree
  import opened SquashIndex

  /** The paths stored at position (i, j). */
  ghost function StoredAt(layers: seq<Layer>, i: nat, j: nat): iset<Bytes> {
    iset q | EmittedBefore(layers, i, j, q) || WhiteoutAbove(layers, i, q) || OpaqueAbove(layers, i, q)
  }

  /** Hidden by a whiteout above, or handed on already and opaque above. */
  ghost predicate Gone(layers: seq<Layer>, i: nat, j: nat, q: Bytes) {
    WhiteoutAbove(layers, i, q) || (EmittedBefore(layers, i, j, q) && OpaqueAbove(layers, i, q))
  }

  ghost predicate OnlySeen(layers: seq<Layer>, i: nat, j: nat, q: Bytes) {
    EmittedBefore(layers, i, j, q) && !WhiteoutAbove(layers, i, q) && !OpaqueAbove(layers, i, q)
  }

  ghost predicate OnlyOpaque(layers: seq<Layer>, i: nat, j: nat, q: Bytes) {
    OpaqueAbove(layers, i, q) && !WhiteoutAbove(layers, i, q) && !EmittedBefore(layers, i, j, q)
  }

  ghost predicate Nearest(layers: seq<Layer>, i: nat, j: nat, k: Bytes, p: Bytes) {
    Below(p, k) && NothingBetween(StoredAt(layers, i, j), k, p)
  }

  /** The entry at (i, j) is dropped for this reason. */
  ghost predicate DroppedFor(layers: seq<Layer>, i: nat, j: nat, reason: Reason)
    requires Pos(layers, i, j)
  {
    var p := Trim(layers[i][j].path);
    && IsNode(layers[i][j])
    && match reason
       case ByWhiteout => Gone(layers, i, j, p)
       case ByShadow => OnlySeen(layers, i, j, p)
       case ByWhiteoutDir => exists k :: Gone(layers, i, j, k) && Nearest(layers, i, j, k, p)
       case ByOpaque => exists k :: OnlyOpaque(layers, i, j, k) && Nearest(layers, i, j, k, p)
  }

  lemma StoredIs(layers: seq<Layer>, i: nat, j: nat)
    requires Pos(layers, i, j)
    ensures Stored(At(layers, i, j).entries) == StoredAt(layers, i, j)
  {
    hide At, EmittedBefore, WhiteoutAbove, OpaqueAbove;
    forall q ensures q in Stored(At(layers, i, j).entries) <==> q in StoredAt(layers, i, j) {
      IndexIs(layers, i, j, q);
    }
  }

  /** The lookup gives each reason exactly when the layers above do. */
  lemma ReasonIs(layers: seq<Layer>, i: nat, j: nat, reason: Reason)
    requires Pos(layers, i, j) && IsNode(layers[i][j])
    ensures IsDeleted(At(layers, i, j).entries, layers[i][j].path) == Some(reason) <==>
      DroppedFor(layers, i, j, reason)
  {
    hide At, EmittedBefore, WhiteoutAbove, OpaqueAbove, IsDeleted, IsNode, Trim, Below, NothingBetween, Exact, Under,
      StoredAt;
    var m := At(layers, i, j).entries;
    Deletions.ReasonExact(m, layers[i][j].path);
    StoredIs(layers, i, j);
    forall k
      ensures Under(m, k) && Exact(m, k) <==> Gone(layers, i, j, k)
      ensures Exact(m, k) && !Under(m, k) <==> OnlySeen(layers, i, j, k)
      ensures Under(m, k) && !Exact(m, k) <==> OnlyOpaque(layers, i, j, k)
    {
      IndexIs(layers, i, j, k);
    }
  }

  /** How many entries before position (i, j) were dropped for the reason. */
  ghost function Tally(layers: seq<Layer>, i: nat, j: nat, reason: Reason): nat
    requires i < |layers| && j <= |layers[i]|
    decreases |layers| - i, j
  {
    if j > 0 then Tally(layers, i, j - 1, reason) + (if DroppedFor(layers, i, j - 1, reason) then 1 else 0)
    else if i + 1 == |layers| then 0
    else Tally(layers, i + 1, |layers[i + 1]|, reason)
  }

  ghost function Tallies(layers: seq<Layer>, i: nat, j: nat): Stats
    requires i < |layers| && j <= |layers[i]|
  {
    Stats(Tally(layers, i, j, ByWhiteout), Tally(layers, i, j, ByWhiteoutDir),
          Tally(layers, i, j, ByOpaque), Tally(layers, i, j, ByShadow))
  }

  lemma {:induction false} StatsAt(layers: seq<Layer>, i: nat, j: nat)
    requires i < |layers| && j <= |layers[i]|
    ensures At(layers, i, j).stats == Tallies(layers, i, j)
    decreases |layers| - i, j
  {
    hide IsDeleted, DroppedFor, Classify, Insert, InsertAll;
    if j > 0 {
      StatsAt(layers, i, j - 1);
      StatsStep(layers, i, j - 1);
    } else if i + 1 < |layers| {
      StatsAt(layers, i + 1, |layers[i + 1]|);
    }
  }

  lemma StatsStep(layers: seq<Layer>, i: nat, j: nat)
    requires Pos(layers, i, j) && At(layers, i, j).stats == Tallies(layers, i, j)
    ensures At(layers, i, j + 1).stats == Tallies(layers, i, j + 1)
  {
    hide IsDeleted, Classify, Insert, IsNode, Gone, OnlySeen, OnlyOpaque, Nearest;
    NodeIff(layers[i][j]);
    if IsNode(layers[i][j]) {
      ReasonIs(layers, i, j, ByWhiteout);
      ReasonIs(layers, i, j, ByWhiteoutDir);
      ReasonIs(layers, i, j, ByOpaque);
      ReasonIs(layers, i, j, ByShadow);
    }
  }

  /** The counters of a whole run. */
  lemma CountersAre(layers: seq<Layer>)
    requires layers != []
    ensures Squashed(layers, 0).stats == Tallies(layers, 0, |layers[0]|)
  {
    hide ProcessTo, Tally;
    StatsAt(layers, 0, |layers[0]|);
  }
}
