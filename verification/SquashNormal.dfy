/**
 Where squashing (peimage/src/squash.rs) does what its markers ask: for paths in normal form, names with one
 slash between each two, an entry that a marker above removes is dropped unless a stored key lies between; and
 one whiteout, or one opaque directory, over any proper layer is squashed exactly.
 */
module SquashNormal {
  import opened Bytes
  import opened Paths
  import opened RawPaths
  import opened Deletions
  import opened OrderedLookup
  import opened Squash
  import opened SquashTree
  import opened SquashIndex
  import opened SquashMeaning

  /** The path, without a slash at its end, is these names in normal form. */
  predicate Canonical(path: Bytes, names: seq<Bytes>) {
    names != [] && PlainNames(names) && Trim(path) == Joined(names)
  }

  lemma CanonicalPlace(path: Bytes, names: seq<Bytes>)
    requires Canonical(path, names)
    ensures PlaceOf(path) == Normals(names)
  {
    hide PlaceOf, Joined;
    TrimPlace(path);
    JoinedFolder(names);
  }

  lemma CanonicalTidy(path: Bytes, names: seq<Bytes>)
    requires Canonical(path, names)
    ensures Tidy(path)
  {
    hide NameStart;
    var n := |names| - 1;
    var dir, last := names[..n], names[n];
    assert names == dir + [last] && PlainName(last);
    JoinedSnoc(dir, last);
    if dir == [] {
      StartAfterSlash([], last);
      assert [] + last == last;
    } else {
      StartAfterSlash(Joined(dir) + [SLASH], last);
      assert Joined(names)[|Joined(dir)| + 1..] == last;
    }
  }

  /** What is below in the tree is below in the bytes. */
  lemma {:induction false} BelowInBytes(names: seq<Bytes>, dir: seq<Bytes>)
    requires dir != [] && dir < names
    ensures Below(Joined(names), Joined(dir))
    decreases |names|
  {
    var n := |names| - 1;
    var front := names[..n];
    assert names == front + [names[n]];
    JoinedSnoc(front, names[n]);
    if dir != front {
      assert dir < front;
      BelowInBytes(front, dir);
      var p := Joined(front);
      assert Joined(names)[..|p|] == p;
    }
  }

  // ---------- markers in normal form ----------

  /** The whiteout of `dir/name`. */
  function WhiteoutPath(dir: seq<Bytes>, name: Bytes): Bytes {
    Joined(dir + [MARK + name])
  }

  /** The opaque marker of a directory. */
  function OpaquePath(dir: seq<Bytes>): Bytes {
    Joined(dir + [OPAQUE_MARK])
  }

  predicate Hideable(dir: seq<Bytes>, name: Bytes) {
    PlainNames(dir) && PlainName(name) && !(OPAQUE_MARK <= MARK + name)
  }

  lemma MarkedPlain(name: Bytes)
    requires PlainName(name)
    ensures PlainName(MARK + name) && (MARK + name)[|MARK|..] == name && PlainName(OPAQUE_MARK)
  {
    var w := MARK + name;
    assert |w| > 4 && w[1] == 119;
    assert SLASH !in MARK && SLASH !in OPAQUE_MARK;
  }

  /** The key stored for a whiteout is the path of the name, byte for byte, and for an opaque marker the directory. */
  lemma MarkerKeys(dir: seq<Bytes>, name: Bytes)
    requires Hideable(dir, name)
    ensures Classify(WhiteoutPath(dir, name)) == HidesPath(Joined(dir + [name]))
    ensures dir != [] ==> Classify(OpaquePath(dir)) == HidesBelow(Joined(dir))
  {
    hide FileName, Parent, Stripped, Joined, PlainName, WithFileName;
    MarkedPlain(name);
    JoinedSnoc(dir, MARK + name);
    JoinedSnoc(dir, name);
    JoinedSnoc(dir, OPAQUE_MARK);
    assert MARK == OPAQUE_MARK[..|MARK|] && MARK <= MARK + name;
    if dir == [] {
      NameAtTop(MARK + name);
      TopIsFolder(name);
      WithNameInDir(name, MARK + name, name);
    } else {
      JoinedFolder(dir);
      FolderIsDir(Joined(dir));
      NameInDir(Joined(dir), MARK + name);
      NameInDir(Joined(dir), OPAQUE_MARK);
      WithNameInDir(Joined(dir), MARK + name, name);
    }
  }

  lemma FolderIsDir(dir: Bytes)
    requires Folder(dir)
    ensures dir != [] && dir != [SLASH] && Stripped(dir) == dir && Trim(dir) == dir
  {
  }

  lemma TargetKey(dir: seq<Bytes>, name: Bytes)
    requires PlainNames(dir) && PlainName(name)
    ensures Trim(Joined(dir + [name])) == Joined(dir + [name])
    ensures dir != [] ==> Trim(Joined(dir)) == Joined(dir)
  {
    hide Trim, Folder, Joined;
    JoinedFolder(dir + [name]);
    FolderIsDir(Joined(dir + [name]));
    if dir != [] {
      JoinedFolder(dir);
      FolderIsDir(Joined(dir));
    }
  }

  // ---------- a marker takes effect ----------

  /** The marker at (k, l) is the whiteout of `dir/name` in normal form. */
  predicate IsWhiteout(layers: seq<Layer>, k: nat, l: nat, dir: seq<Bytes>, name: Bytes) {
    Pos(layers, k, l) && Hideable(dir, name) && layers[k][l].path == WhiteoutPath(dir, name)
  }

  predicate IsOpaque(layers: seq<Layer>, k: nat, l: nat, dir: seq<Bytes>) {
    Pos(layers, k, l) && dir != [] && PlainNames(dir) && layers[k][l].path == OpaquePath(dir)
  }

  lemma WhiteoutStored(layers: seq<Layer>, i: nat, k: nat, l: nat, dir: seq<Bytes>, name: Bytes)
    requires i < k && IsWhiteout(layers, k, l, dir, name)
    ensures WhiteoutAbove(layers, i, Joined(dir + [name]))
  {
    hide Classify, Trim, Joined, Hideable;
    HideableIs(dir, name);
    MarkerKeys(dir, name);
    TargetKey(dir, name);
    assert WhiteoutIn(layers[k], |layers[k]|, Joined(dir + [name]));
  }

  lemma HideableIs(dir: seq<Bytes>, name: Bytes)
    requires Hideable(dir, name)
    ensures PlainNames(dir) && PlainName(name)
  {
  }

  lemma OpaqueStored(layers: seq<Layer>, i: nat, k: nat, l: nat, dir: seq<Bytes>)
    requires i < k && IsOpaque(layers, k, l, dir)
    ensures OpaqueAbove(layers, i, Joined(dir))
  {
    hide Classify, Trim, Joined;
    PlainLetter();
    MarkerKeys(dir, [97]);
    TargetKey(dir, [97]);
    assert OpaqueIn(layers[k], |layers[k]|, Joined(dir));
  }

  lemma PlainLetter()
    ensures PlainName([97]) && !(OPAQUE_MARK <= MARK + [97])
  {
    assert [97] != DOT_NAME && |MARK + [97]| == 5;
  }

  /** A whited-out entry is dropped; what is below it too, unless a stored key comes between. */
  lemma WhiteoutDrops(layers: seq<Layer>, i: nat, j: nat, names: seq<Bytes>, k: nat, l: nat, dir: seq<Bytes>,
                      name: Bytes)
    requires Pos(layers, i, j) && i < k && Canonical(layers[i][j].path, names) && IsWhiteout(layers, k, l, dir, name)
    requires dir + [name] == names
          || (dir + [name] < names
              && NothingBetween(Stored(At(layers, i, j).entries), Joined(dir + [name]), Joined(names)))
    ensures !Emits(layers, i, j)
  {
    hide IsDeleted, At, Joined, WhiteoutAbove, OpaqueAbove, EmittedBefore, Exact, Under, NothingBetween, Below,
      IsWhiteout;
    var m, q := At(layers, i, j).entries, Joined(dir + [name]);
    WhiteoutStored(layers, i, k, l, dir, name);
    IndexIs(layers, i, j, q);
    if dir + [name] != names { BelowInBytes(names, dir + [name]); }
    Deletions.LookupExact(m, layers[i][j].path);
  }

  /** What is below an opaque directory is dropped unless a stored key comes between. */
  lemma OpaqueDrops(layers: seq<Layer>, i: nat, j: nat, names: seq<Bytes>, k: nat, l: nat, dir: seq<Bytes>)
    requires Pos(layers, i, j) && i < k && Canonical(layers[i][j].path, names) && IsOpaque(layers, k, l, dir)
    requires dir < names && NothingBetween(Stored(At(layers, i, j).entries), Joined(dir), Joined(names))
    ensures !Emits(layers, i, j)
  {
    hide IsDeleted, At, Joined, WhiteoutAbove, OpaqueAbove, EmittedBefore, Exact, Under, NothingBetween, Below;
    var m := At(layers, i, j).entries;
    OpaqueStored(layers, i, k, l, dir);
    IndexIs(layers, i, j, Joined(dir));
    BelowInBytes(names, dir);
    Deletions.LookupExact(m, layers[i][j].path);
  }

  // ---------- one marker over any proper layer ----------

  /** Entries with names in normal form, one for a place, and nothing below an entry that is no directory. */
  ghost predicate Proper(layer: Layer) {
    && (forall j :: 0 <= j < |layer| ==> IsNode(layer[j]) && exists names :: Canonical(layer[j].path, names))
    && (forall j, l :: 0 <= j < |layer| && 0 <= l < |layer| && j != l ==>
          PlaceOf(layer[j].path) != PlaceOf(layer[l].path))
    && (forall j, l :: 0 <= j < |layer| && 0 <= l < |layer| && PlaceOf(layer[j].path) < PlaceOf(layer[l].path) ==>
          layer[j].dir)
  }

  lemma NoReplacing(layer: Layer, j: nat, l: nat)
    requires Proper(layer) && j < |layer| && l < |layer| && j != l
    ensures !Replaces(layer[l], PlaceOf(layer[j].path))
  {
    hide PlaceOf, IsNode, Canonical;
  }

  /** Two layers of which the upper one is a single marker. */
  function Over(lower: Layer, path: Bytes): seq<Layer> {
    [lower, [Entry(path, false, [])]]
  }

  lemma OverChangesets(lower: Layer, path: Bytes)
    requires Proper(lower) && !IsNode(Entry(path, false, [])) && Tidy(path)
    ensures Changesets(Over(lower, path))
    ensures forall i, j :: Pos(Over(lower, path), i, j) ==> Tidy(Over(lower, path)[i][j].path)
  {
    hide PlaceOf, IsNode, Canonical, Tidy;
    var layers := Over(lower, path);
    forall i, j | Pos(layers, i, j) ensures Tidy(layers[i][j].path) {
      if i == 0 {
        var names :| Canonical(lower[j].path, names);
        CanonicalTidy(lower[j].path, names);
      }
    }
  }

  lemma CoveredByMarker(lower: Layer, path: Bytes, j: nat)
    requires Proper(lower) && !IsNode(Entry(path, false, [])) && j < |lower| && !Visible(Over(lower, path), 0, j)
    ensures Removes(Entry(path, false, []), PlaceOf(lower[j].path))
  {
    hide PlaceOf, IsNode, Canonical, Proper, Removes;
    var layers := Over(lower, path);
    ProperNode(lower, j);
    var k, l :| Pos(layers, k, l) && Covers(layers, k, l, 0, j);
    if k == 0 { NoReplacing(lower, j, l); }
  }

  lemma ProperNode(layer: Layer, j: nat)
    requires Proper(layer) && j < |layer|
    ensures IsNode(layer[j]) && exists names :: Canonical(layer[j].path, names)
  {
    hide PlaceOf, IsNode, Canonical;
  }

  lemma NoneVisible(lower: Layer, path: Bytes, j: nat, q: Bytes)
    requires !IsNode(Entry(path, false, []))
    ensures !VisibleBefore(Over(lower, path), 0, j, q)
  {
    hide IsNode, Trim;
    var layers := Over(lower, path);
    forall k, l | Pos(layers, k, l) && k >= 1 ensures !Visible(layers, k, l) {}
  }

  /** The only key that matters is the marker's. */
  lemma OneKey(lower: Layer, path: Bytes, j: nat, key: Bytes, p: Bytes)
    requires !IsNode(Entry(path, false, [])) && !Classify(path).Node? && Trim(Classify(path).path) == key
    ensures NothingBetween(Marked(Over(lower, path), 0, j), key, p)
  {
    hide IsNode, Classify, Trim, Less;
    var layers := Over(lower, path);
    forall q | q in Marked(layers, 0, j) ensures q == key {
      NoneVisible(lower, path, j, q);
    }
    LessIrreflexive(key);
  }

  /** A whiteout of any name over any proper layer: what comes out is what applying the layers gives. */
  lemma WhiteoutSquashes(lower: Layer, dir: seq<Bytes>, name: Bytes)
    requires Proper(lower) && Hideable(dir, name)
    ensures var layers := Over(lower, WhiteoutPath(dir, name));
      && Clear(layers) && SameAsBottomUp(layers)
      && forall j :: 0 <= j < |lower| ==>
           (Emits(layers, 0, j) <==> !(Normals(dir + [name]) <= PlaceOf(lower[j].path)))
  {
    hide PlaceOf, IsNode, Canonical, Proper, Removes, Clear, SameAsBottomUp, Emits, Classify, Trim, WhiteoutPath,
      Hideable, Tidy, Changesets, Visible, Found;
    var path := WhiteoutPath(dir, name);
    var layers := Over(lower, path);
    WhiteoutIs(dir, name);
    OverChangesets(lower, path);
    forall i, j | Pos(layers, i, j) && IsNode(layers[i][j]) && !Visible(layers, i, j)
      ensures Found(layers, i, j, Trim(layers[i][j].path))
    {
      CoveredByMarker(lower, path, j);
      WhiteoutFound(lower, dir, name, j);
    }
    ClearIfCoveredFound(layers);
    SquashIffClear(layers);
    forall j | 0 <= j < |lower| ensures Emits(layers, 0, j) <==> !(Normals(dir + [name]) <= PlaceOf(lower[j].path)) {
      ClearMeansAgrees(layers, 0, j);
      VisibleUnlessRemoved(lower, path, j);
      WhiteoutRemoves(dir, name, PlaceOf(lower[j].path));
    }
  }

  lemma WhiteoutRemoves(dir: seq<Bytes>, name: Bytes, w: Place)
    requires Hideable(dir, name)
    ensures Removes(Entry(WhiteoutPath(dir, name), false, []), w) <==> Normals(dir + [name]) <= w
  {
    hide PlaceOf, Classify, Trim, Joined, WhiteoutPath, MarkOf, Hideable;
    HideableIs(dir, name);
    var e := Entry(WhiteoutPath(dir, name), false, []);
    MarkerKeys(dir, name);
    KindRemoves(e, w);
    TargetKey(dir, name);
    JoinedFolder(dir + [name]);
  }

  lemma WhiteoutIs(dir: seq<Bytes>, name: Bytes)
    requires Hideable(dir, name)
    ensures !IsNode(Entry(WhiteoutPath(dir, name), false, [])) && Tidy(WhiteoutPath(dir, name))
    ensures Classify(WhiteoutPath(dir, name)) == HidesPath(Joined(dir + [name]))
    ensures Trim(Joined(dir + [name])) == Joined(dir + [name])
  {
    hide PlaceOf, Classify, Joined, Tidy, MarkOf, IsNode, Hideable;
    HideableIs(dir, name);
    MarkerKeys(dir, name);
    TargetKey(dir, name);
    NodeIff(Entry(WhiteoutPath(dir, name), false, []));
    MarkerTidy(dir, MARK + name);
    MarkedPlain(name);
  }

  lemma MarkerTidy(dir: seq<Bytes>, mark: Bytes)
    requires PlainNames(dir)
    ensures PlainName(mark) ==> Tidy(Joined(dir + [mark]))
  {
    hide Tidy, Joined;
    if PlainName(mark) {
      JoinedFolder(dir + [mark]);
      FolderIsDir(Joined(dir + [mark]));
      CanonicalTidy(Joined(dir + [mark]), dir + [mark]);
    }
  }

  lemma VisibleUnlessRemoved(lower: Layer, path: Bytes, j: nat)
    requires Proper(lower) && !IsNode(Entry(path, false, [])) && j < |lower|
    ensures Visible(Over(lower, path), 0, j) <==> !Removes(Entry(path, false, []), PlaceOf(lower[j].path))
  {
    hide PlaceOf, IsNode, Canonical, Proper, Removes;
    var layers := Over(lower, path);
    if !Visible(layers, 0, j) { CoveredByMarker(lower, path, j); }
    if Removes(Entry(path, false, []), PlaceOf(lower[j].path)) {
      assert Pos(layers, 1, 0) && Covers(layers, 1, 0, 0, j);
    }
  }

  lemma WhiteoutFound(lower: Layer, dir: seq<Bytes>, name: Bytes, j: nat)
    requires Proper(lower) && Hideable(dir, name) && j < |lower|
    requires Removes(Entry(WhiteoutPath(dir, name), false, []), PlaceOf(lower[j].path))
    ensures Found(Over(lower, WhiteoutPath(dir, name)), 0, j, Trim(lower[j].path))
  {
    hide PlaceOf, IsNode, Proper, Removes, Classify, Trim, WhiteoutPath, Hideable, Joined, WhiteoutAbove, VisibleBefore,
      OpaqueAbove, NothingBetween, Below, Tidy;
    var path, key := WhiteoutPath(dir, name), Joined(dir + [name]);
    var layers := Over(lower, path);
    ProperNode(lower, j);
    var names :| Canonical(lower[j].path, names);
    CanonicalPlace(lower[j].path, names);
    WhiteoutRemoves(dir, name, PlaceOf(lower[j].path));
    PrefixOfNames(dir + [name], names);
    WhiteoutIs(dir, name);
    assert IsWhiteout(layers, 1, 0, dir, name);
    WhiteoutStored(layers, 0, 1, 0, dir, name);
    if dir + [name] != names {
      BelowInBytes(names, dir + [name]);
      OneKey(lower, path, j, key, Joined(names));
    }
  }

  /** The same for the opaque marker of any directory: exactly what is below it goes. */
  lemma OpaqueSquashes(lower: Layer, dir: seq<Bytes>)
    requires Proper(lower) && dir != [] && PlainNames(dir)
    ensures var layers := Over(lower, OpaquePath(dir));
      && Clear(layers) && SameAsBottomUp(layers)
      && forall j :: 0 <= j < |lower| ==> (Emits(layers, 0, j) <==> !(Normals(dir) < PlaceOf(lower[j].path)))
  {
    hide PlaceOf, IsNode, Canonical, Proper, Removes, Clear, SameAsBottomUp, Emits, Classify, Trim, OpaquePath,
      Tidy, Changesets, Visible, Found;
    var path := OpaquePath(dir);
    var layers := Over(lower, path);
    OpaqueIs(dir);
    OverChangesets(lower, path);
    forall i, j | Pos(layers, i, j) && IsNode(layers[i][j]) && !Visible(layers, i, j)
      ensures Found(layers, i, j, Trim(layers[i][j].path))
    {
      CoveredByMarker(lower, path, j);
      OpaqueFound(lower, dir, j);
    }
    ClearIfCoveredFound(layers);
    SquashIffClear(layers);
    forall j | 0 <= j < |lower| ensures Emits(layers, 0, j) <==> !(Normals(dir) < PlaceOf(lower[j].path)) {
      ClearMeansAgrees(layers, 0, j);
      VisibleUnlessRemoved(lower, path, j);
      OpaqueRemoves(dir, PlaceOf(lower[j].path));
    }
  }

  lemma OpaqueRemoves(dir: seq<Bytes>, w: Place)
    requires dir != [] && PlainNames(dir)
    ensures Removes(Entry(OpaquePath(dir), false, []), w) <==> Normals(dir) < w
  {
    hide PlaceOf, Classify, Trim, Joined, OpaquePath, MarkOf;
    var e := Entry(OpaquePath(dir), false, []);
    OpaqueIs(dir);
    KindRemoves(e, w);
    JoinedFolder(dir);
  }

  lemma OpaqueIs(dir: seq<Bytes>)
    requires dir != [] && PlainNames(dir)
    ensures !IsNode(Entry(OpaquePath(dir), false, [])) && Tidy(OpaquePath(dir))
    ensures Classify(OpaquePath(dir)) == HidesBelow(Joined(dir)) && Trim(Joined(dir)) == Joined(dir)
  {
    hide PlaceOf, Classify, Joined, Tidy, MarkOf, IsNode;
    PlainLetter();
    MarkerKeys(dir, [97]);
    TargetKey(dir, [97]);
    NodeIff(Entry(OpaquePath(dir), false, []));
    MarkedPlain([97]);
    MarkerTidy(dir, OPAQUE_MARK);
  }

  lemma OpaqueFound(lower: Layer, dir: seq<Bytes>, j: nat)
    requires Proper(lower) && dir != [] && PlainNames(dir) && j < |lower|
    requires Removes(Entry(OpaquePath(dir), false, []), PlaceOf(lower[j].path))
    ensures Found(Over(lower, OpaquePath(dir)), 0, j, Trim(lower[j].path))
  {
    hide PlaceOf, IsNode, Proper, Removes, Classify, Trim, OpaquePath, Joined, WhiteoutAbove, VisibleBefore,
      OpaqueAbove, NothingBetween, Below, Tidy;
    var path, key := OpaquePath(dir), Joined(dir);
    var layers := Over(lower, path);
    ProperNode(lower, j);
    var names :| Canonical(lower[j].path, names);
    CanonicalPlace(lower[j].path, names);
    OpaqueRemoves(dir, PlaceOf(lower[j].path));
    PrefixOfNames(dir, names);
    OpaqueIs(dir);
    assert IsOpaque(layers, 1, 0, dir);
    OpaqueStored(layers, 0, 1, 0, dir);
    BelowInBytes(names, dir);
    OneKey(lower, path, j, key, Joined(names));
  }
}
