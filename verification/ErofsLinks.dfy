/**
 Hard links in the builder's tree (peerofs/src/build.rs): `Root::get` and one step of `resolve_links`, and
 the files a tree stands for once its links are resolved.
 */
module ErofsLinks {
  import opened Bytes
  import opened Paths
  import opened ErofsDisk
  import opened ErofsDirents
  import opened ErofsTree
  import opened ErofsPacking
  import opened ErofsImage
  import opened ErofsStages
  import opened ErofsFiles
  import opened ErofsInserts

  datatype HardLink = HardLink(path: Bytes, target: Bytes, meta: Meta)

  /** `lookup_impl(path, false)` and the child of that name. */
  function FindPath(d: Dir, comps: seq<Component>): Result<Option<Dirent>, BuildError>
    decreases |comps|
  {
    if comps == [] then Ok(None)
    else if |comps| == 1 then
      match comps[0]
      case Normal(name) => Ok(Entry(d.children, name))
      case CurDir => Ok(None)
      case _ => Err(WeirdPath)
    else
      match comps[0]
      case CurDir => FindPath(d, comps[1..])
      case RootDir => FindPath(d, comps[1..])
      case ParentDir => Err(PathWithDotDot)
      case Normal(name) =>
        match Entry(d.children, name)
        case Some(SubDir(s)) => FindPath(s, comps[1..])
        case _ => Err(NotADir)
  }

  /** `Root::get` */
  function FindRaw(d: Dir, raw: Bytes): Result<Option<Dirent>, BuildError> {
    if raw == [] then Err(EmptyPath)
    else if raw == [DOT] || raw == [DOT, SLASH] || raw == [SLASH] then Ok(None)
    else FindPath(d, Components(raw))
  }

  /** The leaf with one link more. */
  function Bumped(n: Dirent): (r: Dirent)
    requires IsLeaf(n)
    ensures IsLeaf(r) && (r.File? <==> n.File?) && r.leaf.(nLinks := n.leaf.nLinks) == n.leaf
    ensures r.leaf.nLinks == n.leaf.nLinks + 1 || (r.leaf.nLinks == 0 && n.leaf.nLinks == 0xffff_ffff)
  {
    var l := n.leaf.(nLinks := (n.leaf.nLinks + 1) % 0x1_0000_0000);
    if n.File? then File(l) else Link(l)
  }

  /** What is put at the path of a link: a regular file with the target's bytes, whatever the target is. */
  function LinkLeaf(n: Dirent, meta: Meta): (r: Dirent)
    requires IsLeaf(n)
    ensures r.File? && r.leaf.meta == meta && r.leaf.nLinks == 2 && r.leaf.diskId.None?
    ensures r.leaf.len == n.leaf.len && r.leaf.startBlock == n.leaf.startBlock && r.leaf.tail == n.leaf.tail
  {
    File(n.leaf.(meta := meta, nLinks := 2, diskId := None))
  }

  /** One round of `resolve_links`. */
  function LinkOne(d: Dir, l: HardLink): (Dir, Result<(), BuildError>) {
    match FindRaw(d, l.target)
    case Err(e) => (d, Err(e))
    case Ok(None) => (d, Err(HardlinkNotResolved))
    case Ok(Some(n)) =>
      if !IsLeaf(n) then (d, Err(HardlinkToDir))
      else
        var d' := EditRaw(d, l.target, Insert(Bumped(n))).0;
        if l.path != [] && l.path[|l.path| - 1] == SLASH then (d', Err(PathTrailingSlash))
        else EditRaw(d', l.path, Insert(LinkLeaf(n, l.meta)))
  }

  /** `resolve_links`: links in the order they were added, up to the first error. */
  function LinkTree(d: Dir, links: seq<HardLink>): (Dir, Result<(), BuildError>) {
    if links == [] then (d, Ok(()))
    else
      var (d', r) := LinkTree(d, links[..|links| - 1]);
      if r.Err? then (d', r) else LinkOne(d', links[|links| - 1])
  }

  /** The files with the links as files: the bytes of the target, as it is by then, at the path. */
  function Linked(files: FileMap, links: seq<HardLink>): FileMap {
    if links == [] then files
    else
      var before, l := Linked(files, links[..|links| - 1]), links[|links| - 1];
      if NamesOf(l.target) in before then LinkedOne(before, l) else before
  }

  function LinkedOne(files: FileMap, l: HardLink): FileMap
    requires NamesOf(l.target) in files
  {
    Without(files, NamesOf(l.path))[NamesOf(l.path) := files[NamesOf(l.target)]]
  }

  lemma {:induction false} FoundIsLeaf(d: Dir, comps: seq<Component>, n: Dirent)
    requires IsLeaf(n) && FindPath(d, comps) == Ok(Some(n))
    ensures LeafAt(d, PathNames(comps)) == Some(n)
    ensures forall n' :: EditPath(d, comps, Insert(n')).1.Ok?
    decreases |comps|
  {
    if |comps| == 1 {
      assert PathNames(comps) == [comps[0].name] + PathNames(comps[1..]) && comps[1..] == [];
    } else if comps[0].Normal? {
      FoundIsLeaf(Entry(d.children, comps[0].name).value.dir, comps[1..], n);
      assert PathNames(comps) == [comps[0].name] + PathNames(comps[1..]);
    } else {
      FoundIsLeaf(d, comps[1..], n);
    }
  }

  /** Nothing is below a leaf. */
  lemma {:induction false} NothingBelowLeaf(d: Dir, p: seq<Bytes>, q: seq<Bytes>)
    requires LeafAt(d, p).Some? && p < q
    ensures LeafAt(d, q).None?
    decreases |p|
  {
    assert q[0] == p[0];
    var n := Entry(d.children, p[0]).value;
    if n.SubDir? { NothingBelowLeaf(n.dir, p[1..], q[1..]); }
  }

  /** Counting a link changes no file. */
  lemma BumpFiles(img: Bytes, d: Dir, files: FileMap, raw: Bytes, n: Dirent, hi: nat)
    requires FilesOk(img, d, files) && Fresh(d, hi) && IsLeaf(n) && FindRaw(d, raw) == Ok(Some(n))
    ensures var d' := EditRaw(d, raw, Insert(Bumped(n))).0; Fresh(d', hi) && FilesOk(img, d', files)
    ensures NodeFresh(n, hi) && NamesOf(raw) in files && files[NamesOf(raw)] == LeafData(img, n.leaf)
  {
    hide FindPath, EditPath, LeafData, LeafAt, Fresh, FilesOk, Components;
    var p := NamesOf(raw);
    FoundIsLeaf(d, Components(raw), n);
    LeafAtFresh(d, p, hi);
    InsertFiles(img, d, files, raw, Bumped(n), hi);
    BumpedData(img, n);
    OneFile(img, d, files, p);
    assert Without(files, p)[p := LeafData(img, n.leaf)] == files by { SameFiles(img, d, files, p); }
  }

  lemma BumpedData(img: Bytes, n: Dirent)
    requires IsLeaf(n)
    ensures LeafData(img, Bumped(n).leaf) == LeafData(img, n.leaf)
    ensures forall hi: nat :: NodeFresh(n, hi) ==> NodeFresh(Bumped(n), hi)
  {
  }

  lemma OneFile(img: Bytes, d: Dir, files: FileMap, p: seq<Bytes>)
    requires FilesOk(img, d, files)
    ensures p in files <==> LeafAt(d, p).Some?
    ensures p in files ==> files[p] == LeafData(img, LeafAt(d, p).value.leaf)
  {
    hide LeafAt, LeafData;
    assert FileOk(img, d, files, p);
  }

  lemma SameFiles(img: Bytes, d: Dir, files: FileMap, p: seq<Bytes>)
    requires FilesOk(img, d, files) && p in files
    ensures Without(files, p)[p := files[p]] == files
  {
    hide LeafAt, LeafData, FilesOk;
    OneFile(img, d, files, p);
    forall q | q in files && q != p ensures !(p <= q) {
      OneFile(img, d, files, q);
      if p < q { NothingBelowLeaf(d, p, q); }
    }
  }

  /** A link resolved has the bytes of its target at its path, and no other file changes; on failure none does. */
  lemma LinkOneFiles(img: Bytes, d: Dir, files: FileMap, l: HardLink, hi: nat)
    requires FilesOk(img, d, files) && Fresh(d, hi)
    ensures var (d', r) := LinkOne(d, l);
      && Fresh(d', hi) && (r.Ok? ==> NamesOf(l.target) in files)
      && FilesOk(img, d', if r.Ok? then LinkedOne(files, l) else files)
  {
    hide FindRaw, EditRaw, LeafData, LeafAt, Fresh, FilesOk, NamesOf, Without;
    if FindRaw(d, l.target).Ok? && FindRaw(d, l.target).value.Some? && IsLeaf(FindRaw(d, l.target).value.value) {
      var n := FindRaw(d, l.target).value.value;
      BumpFiles(img, d, files, l.target, n, hi);
      var d' := EditRaw(d, l.target, Insert(Bumped(n))).0;
      LinkLeafData(img, n, l.meta, hi);
      InsertFiles(img, d', files, l.path, LinkLeaf(n, l.meta), hi);
    }
  }

  lemma LinkLeafData(img: Bytes, n: Dirent, meta: Meta, hi: nat)
    requires IsLeaf(n) && NodeFresh(n, hi)
    ensures LeafData(img, LinkLeaf(n, meta).leaf) == LeafData(img, n.leaf) && NodeFresh(LinkLeaf(n, meta), hi)
  {
  }

  // ---------- when a link resolves ----------

  /** A leaf is found exactly if the path ends in a name, has no "..", and the leaf is there. */
  lemma {:induction false} FoundIff(d: Dir, comps: seq<Component>, n: Dirent, hi: nat)
    requires Fresh(d, hi) && PlainComponents(comps) && IsLeaf(n)
    ensures FindPath(d, comps) == Ok(Some(n)) <==>
      EndsInName(comps) && NoDotDot(comps) && LeafAt(d, PathNames(comps)) == Some(n)
    decreases |comps|
  {
    hide Fresh, NoDotDot, Entry;
    if comps != [] {
      NoDotDotStep(comps);
      var rest := comps[1..];
      if |comps| == 1 {
        assert rest == [];
        NothingThere(rest);
        if comps[0].Normal? {
          assert PathNames(comps) == [comps[0].name] + PathNames(rest);
        }
      } else if comps[0].Normal? {
        var name := comps[0].name;
        assert PathNames(comps) == [name] + PathNames(rest);
        SubFresh(d, name, hi);
        if EndsInName(comps) { EndsInSomething(rest); }
        if Entry(d.children, name).Some? && Entry(d.children, name).value.SubDir? {
          FoundIff(Entry(d.children, name).value.dir, rest, n, hi);
        }
      } else if !comps[0].ParentDir? {
        FoundIff(d, rest, n, hi);
      }
    }
  }

  /** The link's target is a file or symlink of the tree, and the link's path can be filled. */
  ghost predicate Resolvable(d: Dir, l: HardLink) {
    && EndsInName(Components(l.target)) && NoDotDot(Components(l.target)) && LeafAt(d, NamesOf(l.target)).Some?
    && !TrailingSlash(l.path) && Insertable(d, Components(l.path))
  }

  lemma RawFoundIff(d: Dir, raw: Bytes, n: Dirent, hi: nat)
    requires Fresh(d, hi) && IsLeaf(n)
    ensures FindRaw(d, raw) == Ok(Some(n)) <==>
      EndsInName(Components(raw)) && NoDotDot(Components(raw)) && LeafAt(d, NamesOf(raw)) == Some(n)
  {
    hide Components, Fresh, FindPath, LeafAt;
    ComponentsPlain(raw);
    FoundIff(d, Components(raw), n, hi);
    EmptyNames();
    if RootPath(raw) { RootNames(raw); }
  }

  /** Counting a link changes one leaf, and nothing about what is a leaf. */
  lemma BumpedLeaf(d: Dir, raw: Bytes, n: Dirent, q: seq<Bytes>, hi: nat)
    requires Fresh(d, hi) && IsLeaf(n) && FindRaw(d, raw) == Ok(Some(n))
    ensures var d' := EditRaw(d, raw, Insert(Bumped(n))).0;
      LeafAt(d', q) == (if q == NamesOf(raw) then Some(Bumped(n)) else LeafAt(d, q))
    ensures LeafAt(d, NamesOf(raw)) == Some(n)
  {
    hide Fresh, FindPath, EditPath, LeafAt, Components;
    FoundIsLeaf(d, Components(raw), n);
    FreshSorted(d, hi);
    InsertedLeaf(d, Components(raw), Bumped(n), q);
    if NamesOf(raw) < q { NothingBelowLeaf(d, NamesOf(raw), q); }
  }

  lemma BumpedOpen(d: Dir, raw: Bytes, n: Dirent, comps: seq<Component>, hi: nat)
    requires Fresh(d, hi) && IsLeaf(n) && FindRaw(d, raw) == Ok(Some(n))
    ensures Insertable(EditRaw(d, raw, Insert(Bumped(n))).0, comps) <==> Insertable(d, comps)
  {
    hide Fresh, FindRaw, EditRaw, LeafAt, NamesOf;
    var p, d' := Above(PathNames(comps)), EditRaw(d, raw, Insert(Bumped(n))).0;
    forall k | 0 < k <= |p| ensures LeafAt(d', p[..k]).None? <==> LeafAt(d, p[..k]).None? {
      BumpedLeaf(d, raw, n, p[..k], hi);
    }
  }

  /** A link resolves exactly if its target is a leaf by then and its path can be filled. */
  lemma LinkIff(d: Dir, l: HardLink, hi: nat)
    requires Fresh(d, hi)
    ensures LinkOne(d, l).1.Ok? <==> Resolvable(d, l)
  {
    hide Fresh, FindRaw, EditRaw, LeafAt, NamesOf, Components, Insertable, EndsInName, NoDotDot;
    var found := FindRaw(d, l.target);
    if LeafAt(d, NamesOf(l.target)).Some? {
      RawFoundIff(d, l.target, LeafAt(d, NamesOf(l.target)).value, hi);
    }
    if found.Ok? && found.value.Some? && IsLeaf(found.value.value) {
      var n := found.value.value;
      RawFoundIff(d, l.target, n, hi);
      BumpFresh(d, l.target, n, hi);
      BumpedOpen(d, l.target, n, Components(l.path), hi);
      RawInsertIff(EditRaw(d, l.target, Insert(Bumped(n))).0, l.path, LinkLeaf(n, l.meta), hi);
    }
  }

  lemma BumpFresh(d: Dir, raw: Bytes, n: Dirent, hi: nat)
    requires Fresh(d, hi) && IsLeaf(n) && FindRaw(d, raw) == Ok(Some(n))
    ensures Fresh(EditRaw(d, raw, Insert(Bumped(n))).0, hi)
  {
    hide Fresh, FindPath, EditPath, LeafAt, Components;
    FoundIsLeaf(d, Components(raw), n);
    LeafAtFresh(d, NamesOf(raw), hi);
    BumpedData([], n);
    ComponentsPlain(raw);
    EditFresh(d, Components(raw), Insert(Bumped(n)), hi);
  }

  /** After a link: the new file at its path with two links, one link more at the target, all else as it was. */
  lemma LinkedLeaf(d: Dir, l: HardLink, q: seq<Bytes>, hi: nat)
    requires Fresh(d, hi) && LinkOne(d, l).1.Ok?
    ensures LeafAt(d, NamesOf(l.target)).Some?
    ensures var n, p := LeafAt(d, NamesOf(l.target)).value, NamesOf(l.path);
      LeafAt(LinkOne(d, l).0, q) ==
        if q == p then Some(LinkLeaf(n, l.meta))
        else if p <= q then None
        else if q == NamesOf(l.target) then Some(Bumped(n))
        else LeafAt(d, q)
  {
    hide Fresh, FindRaw, EditPath, LeafAt, Components, Bumped;
    var n := FindRaw(d, l.target).value.value;
    var d' := EditRaw(d, l.target, Insert(Bumped(n))).0;
    BumpedLeaf(d, l.target, n, q, hi);
    BumpFresh(d, l.target, n, hi);
    FreshSorted(d', hi);
    InsertedLeaf(d', Components(l.path), LinkLeaf(n, l.meta), q);
  }
}
