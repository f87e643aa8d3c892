/**
 The layer squasher (peimage/src/squash.rs): one pass over the layers from the top down with a
 deletion index, against applying the layers from the bottom up.
 */
module Squash {
  import opened Bytes
  import opened RawPaths
  import opened Deletions
  import opened OrderedLookup

  // ---------- layers ----------

  /** A tar entry: its path, whether it is a directory, and everything else about it. */
  datatype Entry = Entry(path: Bytes, dir: bool, body: Bytes)

  type Layer = seq<Entry>

  // ".wh." and ".wh..wh..opq"
  const MARK: Bytes := [46, 119, 104, 46]
  const OPAQUE_MARK: Bytes := MARK + [46, 119, 104, 46, 46, 111, 112, 113]

  datatype Kind = Node | HidesPath(path: Bytes) | HidesBelow(path: Bytes)

  /** `whiteout` */
  function Classify(path: Bytes): Kind {
    match FileName(path)
    case None => Node
    case Some(name) =>
      if OPAQUE_MARK <= name then HidesBelow(Parent(path))
      else if MARK <= name then HidesPath(WithFileName(path, name[|MARK|..]))
      else Node
  }

  /** Reference: what the last component of a place says, if it is a marker. */
  datatype Mark = Plain | RemovesAt(place: Place) | RemovesBelow(place: Place)

  function MarkOf(w: Place): Mark {
    if w == [] || !w[|w| - 1].Normal? then Plain
    else
      var dir, name := w[..|w| - 1], w[|w| - 1].name;
      if OPAQUE_MARK <= name then RemovesBelow(dir)
      else if MARK <= name then RemovesAt(dir + NamePlace(name[|MARK|..]))
      else Plain
  }

  /** A path is taken for the marker that its place says, however it is written. */
  lemma MarkersRecognized(path: Bytes)
    ensures match Classify(path)
            case Node => MarkOf(PlaceOf(path)) == Plain
            case HidesPath(q) => MarkOf(PlaceOf(path)) == RemovesAt(PlaceOf(q))
            case HidesBelow(q) => MarkOf(PlaceOf(path)) == RemovesBelow(PlaceOf(q))
  {
    hide PlaceOf, FileName, Parent, Pushed;
    FileNamePlace(path);
    if FileName(path).Some? {
      var name := FileName(path).value;
      if MARK <= name { PushedPlace(Parent(path), name[|MARK|..]); }
    }
  }

  // ---------- the pass from the top down ----------

  datatype Stats = Stats(deletions: nat, deletionDirs: nat, opaques: nat, shadowed: nat) {
    function Count(reason: Reason): Stats {
      match reason
      case ByWhiteout => this.(deletions := deletions + 1)
      case ByWhiteoutDir => this.(deletionDirs := deletionDirs + 1)
      case ByOpaque => this.(opaques := opaques + 1)
      case ByShadow => this.(shadowed := shadowed + 1)
    }

    function Total(): nat {
      deletions + deletionDirs + opaques + shadowed
    }
  }

  /** The index, the entries handed to the callback, and the counters. */
  datatype Run = Run(entries: PathMap, whiteouts: seq<Bytes>, opaques: seq<Bytes>, out: seq<Entry>, stats: Stats)

  const START: Run := Run(map[], [], [], [], Stats(0, 0, 0, 0))

  /** One entry of a layer; the bottom layer (index 0) stores nothing. */
  function Process(run: Run, e: Entry, bottom: bool): Run {
    match Classify(e.path)
    case HidesPath(q) => if bottom then run else run.(whiteouts := run.whiteouts + [Trim(q)])
    case HidesBelow(q) => if bottom then run else run.(opaques := run.opaques + [Trim(q)])
    case Node =>
      match IsDeleted(run.entries, e.path)
      case Some(reason) => run.(stats := run.stats.Count(reason))
      case None =>
        run.(out := run.out + [e], entries := if bottom then run.entries else Insert(run.entries, e.path, Shadowed))
  }

  function ProcessTo(run: Run, layer: Layer, j: nat, bottom: bool): Run
    requires j <= |layer|
  {
    if j == 0 then run else Process(ProcessTo(run, layer, j - 1, bottom), layer[j - 1], bottom)
  }

  function EndLayer(run: Run): Run {
    run.(entries := InsertAll(run.entries, Ops(run.whiteouts, Whiteout) + Ops(run.opaques, Opaque)),
         whiteouts := [], opaques := [])
  }

  /** After the layers from the top down to layer `i`. */
  function Squashed(layers: seq<Layer>, i: nat): Run
    requires i <= |layers|
    decreases |layers| - i
  {
    if i == |layers| then START
    else
      var run := ProcessTo(Squashed(layers, i + 1), layers[i], |layers[i]|, i == 0);
      if i == 0 then run else EndLayer(run)
  }

  /** Just before entry `j` of layer `i`. */
  function At(layers: seq<Layer>, i: nat, j: nat): Run
    requires i < |layers| && j <= |layers[i]|
  {
    ProcessTo(Squashed(layers, i + 1), layers[i], j, i == 0)
  }

  // ---------- the pass as the loops of the source ----------

  /** `squash_layer` */
  method SquashLayer(index: DeletionIndex, layer: Layer, i: nat, out0: seq<Entry>, stats0: Stats)
    returns (out: seq<Entry>, stats: Stats)
    modifies index
    ensures
      var start := Run(old(index.entries), old(index.whiteoutQueue), old(index.opaqueQueue), out0, stats0);
      var run := ProcessTo(start, layer, |layer|, i == 0);
      Run(index.entries, index.whiteoutQueue, index.opaqueQueue, out, stats) == if i == 0 then run else EndLayer(run)
  {
    hide IsDeleted, Insert, InsertAll, Classify;
    ghost var start := Run(index.entries, index.whiteoutQueue, index.opaqueQueue, out0, stats0);
    out, stats := out0, stats0;
    var j := 0;
    while j < |layer|
      invariant 0 <= j <= |layer|
      invariant Run(index.entries, index.whiteoutQueue, index.opaqueQueue, out, stats)
                == ProcessTo(start, layer, j, i == 0)
    {
      var e := layer[j];
      j := j + 1;
      match Classify(e.path) {
        case HidesPath(q) =>
          if i != 0 { index.PushWhiteout(q); }
        case HidesBelow(q) =>
          if i != 0 { index.PushOpaque(q); }
        case Node =>
          match IsDeleted(index.entries, e.path) {
            case Some(reason) => stats := stats.Count(reason);
            case None =>
              out := out + [e];
              if i != 0 { index.InsertSeen(e.path); }
          }
      }
    }
    if i != 0 { index.EndOfLayer(); }
  }

  /** `squash_cb`: the layers in reverse. */
  method SquashAll(layers: seq<Layer>) returns (out: seq<Entry>, stats: Stats)
    ensures out == Squashed(layers, 0).out && stats == Squashed(layers, 0).stats
  {
    hide ProcessTo, EndLayer, Process;
    var index := new DeletionIndex();
    out, stats := [], Stats(0, 0, 0, 0);
    var i := |layers|;
    while i > 0
      invariant 0 <= i <= |layers|
      invariant Run(index.entries, index.whiteoutQueue, index.opaqueQueue, out, stats) == Squashed(layers, i)
    {
      i := i - 1;
      out, stats := SquashLayer(index, layers[i], i, out, stats);
    }
  }
}
