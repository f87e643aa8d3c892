/**
 Layers for which the squasher (peimage/src/squash.rs) hands on an entry that the layers applied from the
 bottom up do not have: four families, each for all names.
 */
module SquashFamilies {
  import opened Bytes
  import opened Paths
  import opened RawPaths
  import opened Deletions
  import opened OrderedLookup
  import opened Squash
  import opened SquashTree
  import opened SquashIndex
  import opened SquashMeaning

  /** An entry handed on although it is covered: the layers are not clear, and the tree does not have it. */
  ghost predicate Stray(layers: seq<Layer>, s: Spot) {
    s in AllHanded(layers) && s !in BottomUp(layers, |layers|).Values && !Clear(layers)
  }

  lemma StrayIs(layers: seq<Layer>, i: nat, j: nat, k: nat, l: nat)
    requires Pos(layers, i, j) && Emits(layers, i, j) && Pos(layers, k, l) && Covers(layers, k, l, i, j)
    ensures Stray(layers, Spot(i, j))
  {
    hide Emits, Clear, AllHanded, BottomUp, Covers;
    AllHandedAre(layers, Spot(i, j));
    AppliedAre(layers, Spot(i, j));
    if Clear(layers) { ClearMeansAgrees(layers, i, j); }
  }

  /** An ordinary name, not a marker. */
  predicate Ordinary(name: Bytes) {
    PlainName(name) && !(MARK <= name)
  }

  lemma OrdinaryInFolder(dir: Bytes, name: Bytes, d: bool, body: Bytes)
    requires Folder(dir) && Ordinary(name)
    ensures var e := Entry(dir + [SLASH] + name, d, body);
      IsNode(e) && Trim(e.path) == e.path && Tidy(e.path) && PlaceOf(e.path) == PlaceOf(dir) + [Normal(name)]
  {
    hide PlaceOf, Stripped, FileName, Parent, NameStart;
    var p := dir + [SLASH] + name;
    assert p[|p| - 1] == name[|name| - 1];
    NameInDir(dir, name);
    MarkersRecognized(p);
    StartAfterSlash(dir + [SLASH], name);
    assert p[|dir| + 1..] == name;
    PlaceJoin(dir, name);
    PlaceOfName(name);
    assert MARK == OPAQUE_MARK[..|MARK|];
  }

  lemma OrdinaryAtTop(name: Bytes, d: bool, body: Bytes)
    requires Ordinary(name)
    ensures IsNode(Entry(name, d, body)) && Trim(name) == name && Tidy(name) && PlaceOf(name) == [Normal(name)]
  {
    hide PlaceOf, Stripped, FileName, Parent, NameStart;
    NameAtTop(name);
    MarkersRecognized(name);
    StartAfterSlash([], name);
    assert [] + name == name;
    PlaceOfName(name);
    assert MARK == OPAQUE_MARK[..|MARK|];
  }

  /** The first node of the top layer is handed on. */
  lemma FirstIsEmitted(layers: seq<Layer>, i: nat, j: nat)
    requires Pos(layers, i, j) && i == |layers| - 1 && IsNode(layers[i][j]) && Tidy(layers[i][j].path)
    requires forall l :: 0 <= l < j ==> !IsNode(layers[i][l])
    ensures Emits(layers, i, j)
  {
    hide IsDeleted, At, IsNode, Removes, Tidy, Trim, PlaceOf;
    DroppedIfSeen(layers, i, j);
  }

  lemma OpaqueMarker(dir: Bytes)
    requires Folder(dir)
    ensures Classify(dir + [SLASH] + OPAQUE_MARK) == HidesBelow(dir)
    ensures MarkOf(PlaceOf(dir + [SLASH] + OPAQUE_MARK)) == RemovesBelow(PlaceOf(dir))
  {
    hide PlaceOf, Stripped, FileName, Parent, NameStart;
    NameInDir(dir, OPAQUE_MARK);
    MarkersRecognized(dir + [SLASH] + OPAQUE_MARK);
  }

  function OpaqueExample(dir: Bytes, a: Bytes, b: Bytes): seq<Layer> {
    [[Entry(dir + [SLASH] + b, false, [])],
     [Entry(dir + [SLASH] + OPAQUE_MARK, false, []), Entry(dir + [SLASH] + a, false, [])]]
  }

  /** What the index denotes in the example when it comes to the lower entry. */
  lemma OpaqueExampleIndex(dir: Bytes, a: Bytes, b: Bytes, q: Bytes)
    requires Folder(dir) && Ordinary(a) && Ordinary(b)
    ensures var m := At(OpaqueExample(dir, a, b), 0, 0).entries;
      (Exact(m, q) <==> q == dir + [SLASH] + a) && (Under(m, q) <==> q == dir)
  {
    hide PlaceOf, Stripped, FileName, Parent, NameStart, IsDeleted, At, MarkOf, Classify, Exact, Under, Tidy;
    var layers := OpaqueExample(dir, a, b);
    OpaqueMarker(dir);
    OrdinaryInFolder(dir, a, false, []);
    NodeIff(layers[1][1]);
    FirstIsEmitted(layers, 1, 1);
    IndexIs(layers, 0, 0, q);
    assert Pos(layers, 1, 1) && Before(1, 1, 0, 0);
    assert Classify(layers[1][0].path) == HidesBelow(dir) && Trim(dir) == dir;
    assert OpaqueIn(layers[1], 2, dir);
  }

  /**
   An opaque directory in which the upper layer also has `a`: any lower entry `b` of that directory
   that sorts after `a` is handed on although it is removed.
   */
  lemma OpaqueMissed(dir: Bytes, a: Bytes, b: Bytes)
    requires Folder(dir) && Ordinary(a) && Ordinary(b) && Less(a, b)
    ensures Stray(OpaqueExample(dir, a, b), Spot(0, 0))
  {
    hide PlaceOf, Stripped, NameStart, IsDeleted, At, Exact, Under, Tidy, Ordinary, Stray, Less, Classify, Folder;
    var layers := OpaqueExample(dir, a, b);
    var p, m := dir + [SLASH] + b, At(layers, 0, 0).entries;
    OrdinaryInFolder(dir, b, false, []);
    OpaqueMarker(dir);
    BetweenInFolder(dir, a, b);
    forall q ensures (Exact(m, q) <==> q == dir + [SLASH] + a) && (Under(m, q) <==> q == dir) {
      OpaqueExampleIndex(dir, a, b, q);
    }
    ExactStored(m, dir + [SLASH] + a);
    Deletions.LookupExact(m, p);
    assert Emits(layers, 0, 0);
    assert Pos(layers, 0, 0) && Pos(layers, 1, 0) && Covers(layers, 1, 0, 0, 0);
    StrayIs(layers, 0, 0, 1, 0);
  }

  lemma ExactStored(m: PathMap, q: Bytes)
    requires Exact(m, q)
    ensures q in Stored(m)
  {
  }

  lemma BetweenInFolder(dir: Bytes, a: Bytes, b: Bytes)
    requires Less(a, b)
    ensures Less(dir, dir + [SLASH] + a) && Less(dir + [SLASH] + a, dir + [SLASH] + b)
    ensures dir + [SLASH] + a != dir + [SLASH] + b
  {
    hide Less;
    PrefixLess(dir, dir + [SLASH] + a);
    CommonPrefixLess(dir + [SLASH], a, b);
    LessIrreflexive(dir + [SLASH] + a);
  }

  function RootOpaqueExample(name: Bytes, d: bool): seq<Layer> {
    [[Entry(name, d, [])], [Entry(OPAQUE_MARK, false, [])]]
  }

  /** An opaque marker in the root directory removes every lower entry, but the pass drops none at the top. */
  lemma RootOpaqueMissed(name: Bytes, d: bool)
    requires Ordinary(name)
    ensures Stray(RootOpaqueExample(name, d), Spot(0, 0))
  {
    hide PlaceOf, Stripped, NameStart, IsDeleted, At, Exact, Under, Tidy, Stray, FileName, Parent;
    var layers := RootOpaqueExample(name, d);
    var m := At(layers, 0, 0).entries;
    OrdinaryAtTop(name, d, []);
    NameAtTop(OPAQUE_MARK);
    MarkersRecognized(OPAQUE_MARK);
    PlaceOfName([]);
    forall q ensures !Exact(m, q) && (Under(m, q) ==> q == []) { IndexIs(layers, 0, 0, q); }
    Deletions.LookupExact(m, name);
    assert Emits(layers, 0, 0);
    assert Pos(layers, 0, 0) && Pos(layers, 1, 0) && Covers(layers, 1, 0, 0, 0);
    StrayIs(layers, 0, 0, 1, 0);
  }

  function FileOverExample(dir: Bytes, name: Bytes, d: bool): seq<Layer> {
    [[Entry(dir + [SLASH] + name, d, [])], [Entry(dir, false, [])]]
  }

  /** A file that takes the place of a directory leaves the directory's lower entries to be handed on. */
  lemma FileOverMissed(dir: Bytes, name: Bytes, d: bool)
    requires Ordinary(dir) && Ordinary(name)
    ensures Stray(FileOverExample(dir, name, d), Spot(0, 0))
  {
    hide PlaceOf, Stripped, NameStart, IsDeleted, At, Exact, Under, Tidy, Stray, FileName, Parent, MarkOf, Classify;
    var layers := FileOverExample(dir, name, d);
    var p, m := dir + [SLASH] + name, At(layers, 0, 0).entries;
    TopIsFolder(dir);
    OrdinaryInFolder(dir, name, d, []);
    OrdinaryAtTop(dir, false, []);
    NodeIff(layers[1][0]);
    forall q ensures !Under(m, q) && (Exact(m, q) ==> q == dir) { IndexIs(layers, 0, 0, q); }
    Deletions.LookupExact(m, p);
    assert Emits(layers, 0, 0);
    assert Pos(layers, 0, 0) && Pos(layers, 1, 0) && Covers(layers, 1, 0, 0, 0);
    StrayIs(layers, 0, 0, 1, 0);
  }

  function SlashExample(dir: Bytes): seq<Layer> {
    [[Entry(dir + [SLASH], true, [])], [Entry(dir + [SLASH], true, [])]]
  }

  /** A directory written with its slash in two layers is handed on twice, the lower entry last. */
  lemma SlashRepeated(dir: Bytes)
    requires Ordinary(dir)
    ensures Stray(SlashExample(dir), Spot(0, 0)) && Spot(1, 0) in AllHanded(SlashExample(dir))
  {
    hide PlaceOf, Stripped, NameStart, IsDeleted, At, Exact, Under, Stray, FileName, Parent, MarkOf, Classify;
    var layers := SlashExample(dir);
    var m := At(layers, 0, 0).entries;
    SlashedNode(dir);
    NodeIff(layers[1][0]);
    forall q ensures !Under(m, q) && (Exact(m, q) ==> q == dir + [SLASH]) { IndexIs(layers, 0, 0, q); }
    Deletions.LookupExact(m, dir + [SLASH]);
    assert Pos(layers, 0, 0) && Pos(layers, 1, 0);
    assert Emits(layers, 0, 0);
    assert Covers(layers, 1, 0, 0, 0);
    StrayIs(layers, 0, 0, 1, 0);
    FirstIsEmitted(layers, 1, 0);
    AllHandedAre(layers, Spot(1, 0));
  }

  lemma SlashedNode(dir: Bytes)
    requires Ordinary(dir)
    ensures IsNode(Entry(dir + [SLASH], true, [])) && Trim(dir + [SLASH]) == dir && Tidy(dir + [SLASH])
  {
    hide PlaceOf, NameStart, MarkOf;
    OrdinaryAtTop(dir, true, []);
    assert Trim(dir + [SLASH]) == dir;
    TrimPlace(dir + [SLASH]);
  }
}
