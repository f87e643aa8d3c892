/**
 When the add operations of the EROFS builder (peerofs/src/build.rs) succeed, and what they do to the
 directories on the way.
 */
module ErofsInserts {
  import opened Bytes
  import opened Paths
  import opened ErofsDisk
  import opened ErofsDirents
  import opened ErofsTree
  import opened ErofsStages
  import opened ErofsFiles

  /** No file or symlink on the way: none at the path, and none above it. */
  ghost predicate Open(d: Dir, path: seq<Bytes>) {
    forall k :: 0 < k <= |path| ==> LeafAt(d, path[..k]).None?
  }

  predicate NoDotDot(comps: seq<Component>) {
    forall i :: 0 <= i < |comps| ==> !comps[i].ParentDir?
  }

  predicate EndsInName(comps: seq<Component>) {
    comps != [] && comps[|comps| - 1].Normal?
  }

  lemma {:induction false} EndsInSomething(comps: seq<Component>)
    requires EndsInName(comps)
    ensures PathNames(comps) != []
    decreases |comps|
  {
    if |comps| > 1 { EndsInSomething(comps[1..]); }
  }

  function Above(path: seq<Bytes>): seq<Bytes> {
    if path == [] then [] else path[..|path| - 1]
  }

  /** The path ends in a name, has no "..", and nothing above it is a file. */
  ghost predicate Insertable(d: Dir, comps: seq<Component>) {
    EndsInName(comps) && NoDotDot(comps) && Open(d, Above(PathNames(comps)))
  }

  /** The path has no "..", is more than a root, and neither it nor anything above it is a file. */
  ghost predicate Upsertable(d: Dir, comps: seq<Component>) {
    && NoDotDot(comps) && (comps != [] ==> !comps[|comps| - 1].RootDir?)
    && Open(d, PathNames(comps))
  }

  /** Nothing but "." and ".." is neither a file nor a directory. */
  lemma PlainEntry(d: Dir, name: Bytes, hi: nat)
    requires Fresh(d, hi) && PlainName(name) && Entry(d.children, name).Some?
    ensures IsLeaf(Entry(d.children, name).value) || Entry(d.children, name).value.SubDir?
  {
    hide Sorted;
    EntryMember(d.children, name);
  }

  lemma SubFresh(d: Dir, name: Bytes, hi: nat)
    requires Fresh(d, hi)
    ensures Entry(d.children, name).Some? && Entry(d.children, name).value.SubDir?
            ==> Fresh(Entry(d.children, name).value.dir, hi)
  {
    hide Sorted, DotsOk;
    EntryMember(d.children, name);
    if Entry(d.children, name).Some? { assert NodeFresh(Entry(d.children, name).value, hi); }
  }

  lemma OpenAbsent(d: Dir, path: seq<Bytes>)
    requires path != [] && Entry(d.children, path[0]).None?
    ensures Open(d, path)
  {
    hide Entry;
  }

  lemma OpenSub(d: Dir, path: seq<Bytes>, s: Dir)
    requires path != [] && Entry(d.children, path[0]) == Some(SubDir(s))
    ensures Open(d, path) <==> Open(s, path[1..])
  {
    hide Entry;
    forall k | 0 < k <= |path| ensures LeafAt(d, path[..k]) == LeafAt(s, path[1..][..k - 1]) {
      assert path[..k][1..] == path[1..][..k - 1];
    }
    if Open(d, path) {
      forall k | 0 < k <= |path[1..]| ensures LeafAt(s, path[1..][..k]).None? {
        assert LeafAt(d, path[..k + 1]).None?;
      }
    }
    if Open(s, path[1..]) {
      forall k | 0 < k <= |path| ensures LeafAt(d, path[..k]).None? {
        if k > 1 { assert LeafAt(s, path[1..][..k - 1]).None?; }
      }
    }
  }

  lemma OpenLeaf(d: Dir, path: seq<Bytes>)
    requires path != [] && Entry(d.children, path[0]).Some? && IsLeaf(Entry(d.children, path[0]).value)
    ensures !Open(d, path)
  {
    hide Entry;
    assert LeafAt(d, path[..1]).Some?;
  }

  lemma {:induction false} OpenEmpty(path: seq<Bytes>)
    ensures Open(EmptyDir(), path)
  {
    forall k | 0 < k <= |path| ensures LeafAt(EmptyDir(), path[..k]).None? { EmptyDirHasNothing(path[..k]); }
  }

  /** One directory further down. */
  lemma OpenStep(d: Dir, path: seq<Bytes>, hi: nat)
    requires Fresh(d, hi) && path != [] && PlainName(path[0])
    ensures Open(d, path) <==>
      var r := GetOrCreate(d, path[0]); r.Ok? && Open(r.value, path[1..])
    ensures GetOrCreate(d, path[0]).Ok? ==> Fresh(GetOrCreate(d, path[0]).value, hi)
  {
    hide Open, Entry, Fresh, EmptyDir;
    SubFresh(d, path[0], hi);
    EmptyDirFresh(hi);
    match Entry(d.children, path[0])
    case None =>
      OpenAbsent(d, path);
      OpenEmpty(path[1..]);
    case Some(n) =>
      PlainEntry(d, path[0], hi);
      if n.SubDir? { OpenSub(d, path, n.dir); } else { OpenLeaf(d, path); }
  }

  lemma NoDotDotStep(comps: seq<Component>)
    requires comps != []
    ensures NoDotDot(comps) <==> !comps[0].ParentDir? && NoDotDot(comps[1..])
  {
    if !comps[0].ParentDir? && NoDotDot(comps[1..]) {
      forall i | 0 <= i < |comps| ensures !comps[i].ParentDir? {
        if i > 0 { assert comps[i] == comps[1..][i - 1]; }
      }
    }
    if NoDotDot(comps) {
      forall i | 0 <= i < |comps[1..]| ensures !comps[1..][i].ParentDir? { assert comps[1..][i] == comps[i + 1]; }
    }
  }

  /** An insert succeeds exactly if it can. */
  lemma {:induction false} InsertIff(d: Dir, comps: seq<Component>, n: Dirent, hi: nat)
    requires Fresh(d, hi) && PlainComponents(comps)
    ensures EditPath(d, comps, Insert(n)).1.Ok? <==> Insertable(d, comps)
    decreases |comps|
  {
    hide Open, Fresh, NoDotDot, GetOrCreate, Put, LeafAt;
    if comps != [] {
      NoDotDotStep(comps);
      var rest := comps[1..];
      if |comps| == 1 {
        assert rest == [] && PathNames(comps) == PathNames([comps[0]]);
        assert NoDotDot(rest) by { NothingThere(rest); }
        NothingAbove(d, Above(PathNames(comps)));
      } else if comps[0].Normal? {
        var p, q := PathNames(comps), PathNames(rest);
        assert p == [comps[0].name] + q && p[1..] == q;
        if EndsInName(comps) {
          EndsInSomething(rest);
          OpenStep(d, Above(p), hi);
          assert Above(p)[1..] == Above(q);
        }
        GetFresh(d, comps[0].name, hi);
        if GetOrCreate(d, comps[0].name).Ok? { InsertIff(GetOrCreate(d, comps[0].name).value, rest, n, hi); }
      } else if !comps[0].ParentDir? {
        InsertIff(d, rest, n, hi);
      }
    }
  }

  lemma NothingThere(comps: seq<Component>)
    requires comps == []
    ensures NoDotDot(comps)
  {
  }

  lemma NothingAbove(d: Dir, path: seq<Bytes>)
    ensures path == [] ==> Open(d, path)
  {
  }

  lemma GetFresh(d: Dir, name: Bytes, hi: nat)
    requires Fresh(d, hi)
    ensures GetOrCreate(d, name).Ok? ==> Fresh(GetOrCreate(d, name).value, hi)
  {
    hide Fresh, EmptyDir;
    SubFresh(d, name, hi);
    EmptyDirFresh(hi);
  }

  /** The same for a directory to be made or changed. */
  lemma {:induction false} UpsertIff(d: Dir, comps: seq<Component>, meta: Meta, hi: nat)
    requires Fresh(d, hi) && PlainComponents(comps)
    ensures EditPath(d, comps, Upsert(meta)).1.Ok? <==> Upsertable(d, comps)
    decreases |comps|
  {
    hide Open, Fresh, NoDotDot, GetOrCreate, Put, LeafAt;
    if comps == [] {
      NothingThere(comps);
      NothingAbove(d, PathNames(comps));
    } else {
      NoDotDotStep(comps);
      var rest := comps[1..];
      var p, q := PathNames(comps), PathNames(rest);
      if |comps| == 1 {
        assert rest == [];
        NothingThere(rest);
      }
      if comps[0].Normal? {
        assert p == [comps[0].name] + q && p[1..] == q;
        OpenStep(d, p, hi);
        GetFresh(d, comps[0].name, hi);
        if GetOrCreate(d, comps[0].name).Ok? { UpsertIff(GetOrCreate(d, comps[0].name).value, rest, meta, hi); }
      } else if |comps| == 1 {
        NothingAbove(d, p);
      } else if !comps[0].ParentDir? {
        UpsertIff(d, rest, meta, hi);
      }
    }
  }

  // ---------- paths as bytes ----------

  predicate TrailingSlash(raw: Bytes) {
    raw != [] && raw[|raw| - 1] == SLASH
  }

  predicate RootPath(raw: Bytes) {
    raw == [DOT] || raw == [DOT, SLASH] || raw == [SLASH]
  }

  lemma RootNames(raw: Bytes)
    requires RootPath(raw)
    ensures |Components(raw)| == 1 && !Components(raw)[0].Normal? && NamesOf(raw) == []
  {
    assert Segments([]) == [[]] && [DOT][1..] == [] && [SLASH][1..] == [] && [DOT, SLASH][1..] == [SLASH];
    var none: Bytes := [];
    assert [DOT] + none == DOT_NAME && [none][1..] == [] && [none, none][1..] == [none];
    assert Segments([SLASH]) == [[], []];
    assert Segments([DOT]) == [DOT_NAME];
    assert Segments([DOT, SLASH]) == [DOT_NAME, []];
    var segs := Segments(raw);
    assert segs[1..] == [] || segs[1..] == [[]];
    assert SegmentComponents([[]]) == [];
    assert SegmentComponents(segs) == [];
    assert |Components(raw)| == 1 && Components(raw)[1..] == [] && !Components(raw)[0].Normal?;
    assert PathNames([]) == [];
  }

  lemma EmptyNames()
    ensures Components([]) == []
  {
    assert Segments([]) == [[]];
    var none: Bytes := [];
    assert [none][1..] == [];
  }

  lemma RawInsertIff(d: Dir, raw: Bytes, n: Dirent, hi: nat)
    requires Fresh(d, hi)
    ensures EditRaw(d, raw, Insert(n)).1.Ok? <==> Insertable(d, Components(raw))
  {
    hide Components, Fresh, EditPath, Open;
    ComponentsPlain(raw);
    InsertIff(d, Components(raw), n, hi);
    EmptyNames();
    if RootPath(raw) { RootNames(raw); }
  }

  lemma RawUpsertIff(d: Dir, raw: Bytes, meta: Meta, hi: nat)
    requires Fresh(d, hi)
    ensures EditRaw(d, raw, Upsert(meta)).1.Ok? <==> raw != [] && (RootPath(raw) || Upsertable(d, Components(raw)))
  {
    hide Components, Fresh, EditPath, Upsertable;
    ComponentsPlain(raw);
    UpsertIff(d, Components(raw), meta, hi);
  }

  // ---------- directories on the way ----------

  /** The directory at `q` once a leaf has been put at `p`: gone at and below it, made above it. */
  function DirMetaAfter(d: Dir, p: seq<Bytes>, q: seq<Bytes>): Option<Meta> {
    if p <= q then None
    else if DirMetaAt(d, q).None? && q <= p then Some(DEFAULT_META)
    else DirMetaAt(d, q)
  }

  /** Inserting a leaf makes the directories above it and changes no other. */
  lemma {:induction false} InsertedMeta(d: Dir, comps: seq<Component>, node: Dirent, q: seq<Bytes>)
    requires SortedTree(d) && IsLeaf(node) && EditPath(d, comps, Insert(node)).1.Ok?
    ensures DirMetaAt(EditPath(d, comps, Insert(node)).0, q) == DirMetaAfter(d, PathNames(comps), q)
    decreases |comps|
  {
    hide Put, Entry, Less, Sorted;
    var p := PathNames(comps);
    if |comps| == 1 {
      var name := comps[0].name;
      assert PathNames(comps) == [name] + PathNames([]) by { assert comps[1..] == []; }
      assert p == [name];
      if q != [] { EntryPut(d.children, name, node, q[0]); }
    } else if comps[0].Normal? {
      var name := comps[0].name;
      var s := GetOrCreate(d, name).value;
      SortedSub(d, name);
      EmptyDirSorted();
      assert p == [name] + PathNames(comps[1..]);
      if q != [] {
        var (s', r) := EditPath(s, comps[1..], Insert(node));
        EntryPut(d.children, name, SubDir(s'), q[0]);
        if q[0] == name {
          InsertedMeta(s, comps[1..], node, q[1..]);
          EmptyDirHasNothing(q[1..]);
          assert q == [name] + q[1..];
          assert p <= q <==> PathNames(comps[1..]) <= q[1..];
          assert q <= p <==> q[1..] <= PathNames(comps[1..]);
        }
      }
    } else {
      InsertedMeta(d, comps[1..], node, q);
    }
  }
}
