/**
 The in-memory tree of the EROFS builder (peerofs/src/build.rs): paths, the sorted
 child maps, inserting files and directories, and the sizes derived from a node.
 */
module ErofsTree {
  import opened Bytes
  import opened Paths
  import opened ErofsDisk
  import opened ErofsDirents

  const MAX_DEPTH: nat := 32

  datatype BuildError =
    | EmptyPath | WeirdPath | PathWithDotDot | PathTrailingSlash | NotADir | InsertFailed
    | BlockNoTooBig | MetaBlockTooBig | InodeTooBig | DiskIdTooBig | RootDiskIdTooBig | NoMetaBlock | NoRootDiskId
    | MaxDepthExceeded | MaxSizeExceeded | UidGidTooBig | ModeShouldFitInU16
    | XattrKeyTooLong | XattrValueTooLong | TooManyXattrs
    | HardlinkNotResolved | HardlinkToDir | ShortRead
    | AddrLessThanMetaBlock | AddrNotAligned | NoDiskId | NameOffsetTooBig

  datatype Xattr = Xattr(key: Bytes, value: Bytes)

  /** Permission bits without the file type nibble, as `Mode::from_raw_mode` makes them. */
  type Mode = m: nat | m / 4096 % 16 == 0

  datatype Meta = Meta(uid: u32, gid: u32, mtime: u64, mode: Mode, xattrs: seq<Xattr>)

  const DEFAULT_META: Meta := Meta(0, 0, 0, 0x1ed, [])

  /** A regular file or a symlink: both keep the same fields. */
  datatype Leaf = Leaf(
    meta: Meta, startBlock: u32, nLinks: u32, len: nat, tail: Option<Bytes>, diskId: Option<nat>)

  datatype Dirent = File(leaf: Leaf) | Link(leaf: Leaf) | SubDir(dir: Dir) | Dot | DotDot

  datatype Child = Child(name: Bytes, node: Dirent)

  /** `children` is the `BTreeMap`, as its entries in key order. */
  datatype Dir = Dir(
    children: seq<Child>, meta: Meta, diskId: Option<nat>,
    startBlock: u32, perBlock: seq<nat>, totalSize: nat)

  function EmptyDir(): Dir {
    Dir([Child(DOT_NAME, Dot), Child(DOTDOT_NAME, DotDot)], DEFAULT_META, None, NULL_ADDR, [], 0)
  }

  // ---------- sorted child maps ----------

  predicate Sorted(kids: seq<Child>) {
    forall i, j :: 0 <= i < j < |kids| ==> Less(kids[i].name, kids[j].name)
  }

  function Entry(kids: seq<Child>, name: Bytes): Option<Dirent> {
    if kids == [] then None
    else if kids[0].name == name then Some(kids[0].node)
    else Entry(kids[1..], name)
  }

  /** `BTreeMap::insert` */
  function Put(kids: seq<Child>, name: Bytes, node: Dirent): seq<Child> {
    if kids == [] || Less(name, kids[0].name) then [Child(name, node)] + kids
    else if kids[0].name == name then [Child(name, node)] + kids[1..]
    else [kids[0]] + Put(kids[1..], name, node)
  }

  lemma {:induction false} PutMembers(kids: seq<Child>, name: Bytes, node: Dirent, c: Child)
    requires c in Put(kids, name, node)
    ensures c == Child(name, node) || c in kids
  {
    if kids != [] && !Less(name, kids[0].name) && kids[0].name != name {
      if c != kids[0] {
        assert c in Put(kids[1..], name, node);
        PutMembers(kids[1..], name, node, c);
      }
    }
  }

  lemma {:induction false} PutSorted(kids: seq<Child>, name: Bytes, node: Dirent)
    requires Sorted(kids)
    ensures Sorted(Put(kids, name, node))
  {
    var out := Put(kids, name, node);
    if kids == [] {
    } else if Less(name, kids[0].name) {
      forall j | 0 < j < |out| ensures Less(name, out[j].name) {
        if j > 1 { LessTransitive(name, kids[0].name, kids[j - 1].name); }
      }
    } else if kids[0].name != name {
      var rest := Put(kids[1..], name, node);
      PutSorted(kids[1..], name, node);
      LessTotal(name, kids[0].name);
      forall j | 0 < j < |out| ensures Less(out[0].name, out[j].name) {
        assert out[j] == rest[j - 1];
        PutMembers(kids[1..], name, node, rest[j - 1]);
      }
    }
  }

  lemma {:induction false} EntryMember(kids: seq<Child>, name: Bytes)
    ensures Entry(kids, name).Some? ==> Child(name, Entry(kids, name).value) in kids
    ensures Entry(kids, name).None? ==> forall i :: 0 <= i < |kids| ==> kids[i].name != name
  {
    if kids != [] && kids[0].name != name { EntryMember(kids[1..], name); }
  }

  lemma {:induction false} EntryPut(kids: seq<Child>, name: Bytes, node: Dirent, m: Bytes)
    requires Sorted(kids)
    ensures Entry(Put(kids, name, node), m) == if m == name then Some(node) else Entry(kids, m)
  {
    var out := Put(kids, name, node);
    if kids == [] || Less(name, kids[0].name) {
      assert out[1..] == kids;
    } else if kids[0].name == name {
      assert out[1..] == kids[1..];
    } else {
      assert out[1..] == Put(kids[1..], name, node);
      EntryPut(kids[1..], name, node, m);
    }
  }

  // ---------- inserting ----------

  /** `Dir::get_or_create_dir` */
  function GetOrCreate(d: Dir, name: Bytes): Result<Dir, BuildError> {
    match Entry(d.children, name)
    case None => Ok(EmptyDir())
    case Some(SubDir(s)) => Ok(s)
    case Some(_) => Err(NotADir)
  }

  /** What is done in the directory `lookup_create` returns. */
  datatype Edit = Insert(node: Dirent) | Upsert(meta: Meta)

  /**
   `lookup_impl(path, true)` and then the edit. The tree comes back also on an error:
   directories created before an offending component stay.
   */
  function EditPath(d: Dir, comps: seq<Component>, edit: Edit): (Dir, Result<(), BuildError>)
    decreases |comps|
  {
    if comps == [] then EditHere(d, edit)
    else if |comps| == 1 && !comps[0].Normal? then
      if comps[0].CurDir? then EditHere(d, edit) else (d, Err(WeirdPath))
    else if |comps| == 1 && edit.Insert? then
      (d.(children := Put(d.children, comps[0].name, edit.node)), Ok(()))
    else match comps[0]
      case CurDir => EditPath(d, comps[1..], edit)
      case RootDir => EditPath(d, comps[1..], edit)
      case ParentDir => (d, Err(PathWithDotDot))
      case Normal(name) =>
        match GetOrCreate(d, name)
        case Err(e) => (d, Err(e))
        case Ok(s) =>
          var (s', r) := EditPath(s, comps[1..], edit);
          (d.(children := Put(d.children, name, SubDir(s'))), r)
  }

  /** No name left: only `upsert_dir` may touch the directory itself. */
  function EditHere(d: Dir, edit: Edit): (Dir, Result<(), BuildError>) {
    match edit
    case Insert(_) => (d, Err(InsertFailed))
    case Upsert(m) => (d.(meta := m), Ok(()))
  }

  function EditRaw(d: Dir, raw: Bytes, edit: Edit): (Dir, Result<(), BuildError>) {
    if raw == [] then (d, Err(EmptyPath))
    else if raw == [DOT] || raw == [DOT, SLASH] || raw == [SLASH] then EditHere(d, edit)
    else EditPath(d, Components(raw), edit)
  }

  // ---------- reference: the file map a tree stands for ----------

  predicate IsLeaf(n: Dirent) { n.File? || n.Link? }

  /** The file or symlink at a path. */
  function LeafAt(d: Dir, path: seq<Bytes>): (r: Option<Dirent>)
    ensures r.Some? ==> IsLeaf(r.value)
    decreases |path|
  {
    if path == [] then None else
    match Entry(d.children, path[0])
    case None => None
    case Some(SubDir(s)) => LeafAt(s, path[1..])
    case Some(n) => if |path| == 1 && IsLeaf(n) then Some(n) else None
  }

  /** The metadata of the directory at a path. */
  function DirMetaAt(d: Dir, path: seq<Bytes>): Option<Meta>
    decreases |path|
  {
    if path == [] then Some(d.meta) else
    match Entry(d.children, path[0])
    case Some(SubDir(s)) => DirMetaAt(s, path[1..])
    case _ => None
  }

  lemma {:induction false} EmptyDirHasNothing(path: seq<Bytes>)
    ensures LeafAt(EmptyDir(), path) == None
    ensures DirMetaAt(EmptyDir(), path) == if path == [] then Some(DEFAULT_META) else None
  {
    if path != [] {
      var kids := EmptyDir().children;
      EntryMember(kids, path[0]);
    }
  }

  ghost predicate SortedTree(d: Dir) {
    && Sorted(d.children)
    && forall i :: 0 <= i < |d.children| && d.children[i].node.SubDir? ==> SortedTree(d.children[i].node.dir)
  }

  lemma EmptyDirSorted()
    ensures SortedTree(EmptyDir())
  {
    PrefixLess(DOT_NAME, DOTDOT_NAME);
  }

  lemma SortedSub(d: Dir, name: Bytes)
    requires SortedTree(d)
    ensures Entry(d.children, name).Some? && Entry(d.children, name).value.SubDir?
            ==> SortedTree(Entry(d.children, name).value.dir)
  {
    EntryMember(d.children, name);
  }

  /** The leaf at `q` once `node` has been put at `p`: it hides everything below. */
  function LeafAfter(d: Dir, p: seq<Bytes>, node: Dirent, q: seq<Bytes>): Option<Dirent> {
    if q == p then Some(node) else if p <= q then None else LeafAt(d, q)
  }

  /** Inserting at a path puts the node there, removes what was below, and leaves the rest. */
  lemma {:induction false} InsertedLeaf(d: Dir, comps: seq<Component>, node: Dirent, q: seq<Bytes>)
    requires SortedTree(d) && IsLeaf(node) && EditPath(d, comps, Insert(node)).1.Ok?
    ensures LeafAt(EditPath(d, comps, Insert(node)).0, q) == LeafAfter(d, PathNames(comps), node, q)
    decreases |comps|
  {
    hide Put, Entry, Less, Sorted;
    var p := PathNames(comps);
    if |comps| == 1 {
      var name := comps[0].name;
      assert PathNames(comps) == [name] + PathNames([]) by { assert comps[1..] == []; }
      assert p == [name];
      if q != [] { EntryPut(d.children, name, node, q[0]); }
    } else if comps[0].Normal? {
      var name := comps[0].name;
      var s := GetOrCreate(d, name).value;
      SortedSub(d, name);
      EmptyDirSorted();
      assert p == [name] + PathNames(comps[1..]);
      if q != [] {
        var (s', r) := EditPath(s, comps[1..], Insert(node));
        EntryPut(d.children, name, SubDir(s'), q[0]);
        if q[0] == name {
          InsertedLeaf(s, comps[1..], node, q[1..]);
          EmptyDirHasNothing(q[1..]);
          assert q == [name] + q[1..];
          assert p <= q <==> PathNames(comps[1..]) <= q[1..];
        }
      }
    } else {
      InsertedLeaf(d, comps[1..], node, q);
    }
  }

  /** A failed insert changes no file: at most empty directories were created. */
  lemma {:induction false} FailedInsertKeepsLeaves(d: Dir, comps: seq<Component>, node: Dirent, q: seq<Bytes>)
    requires SortedTree(d) && EditPath(d, comps, Insert(node)).1.Err?
    ensures LeafAt(EditPath(d, comps, Insert(node)).0, q) == LeafAt(d, q)
    decreases |comps|
  {
    if |comps| > 1 {
      if comps[0].Normal? && GetOrCreate(d, comps[0].name).Ok? {
        var name := comps[0].name;
        var s := GetOrCreate(d, name).value;
        SortedSub(d, name);
        EmptyDirSorted();
        if q != [] {
          var (s', r) := EditPath(s, comps[1..], Insert(node));
          EntryPut(d.children, name, SubDir(s'), q[0]);
          FailedInsertKeepsLeaves(s, comps[1..], node, q[1..]);
          EmptyDirHasNothing(q[1..]);
        }
      } else if comps[0].CurDir? || comps[0].RootDir? {
        FailedInsertKeepsLeaves(d, comps[1..], node, q);
      }
    }
  }

  /** Upserting a directory leaves every file alone. */
  lemma {:induction false} UpsertKeepsLeaves(d: Dir, comps: seq<Component>, meta: Meta, q: seq<Bytes>)
    requires SortedTree(d)
    ensures LeafAt(EditPath(d, comps, Upsert(meta)).0, q) == LeafAt(d, q)
    decreases |comps|
  {
    if comps != [] && !(|comps| == 1 && !comps[0].Normal?) {
      if comps[0].Normal? && GetOrCreate(d, comps[0].name).Ok? {
        var name := comps[0].name;
        var s := GetOrCreate(d, name).value;
        SortedSub(d, name);
        EmptyDirSorted();
        if q != [] {
          var (s', r) := EditPath(s, comps[1..], Upsert(meta));
          EntryPut(d.children, name, SubDir(s'), q[0]);
          UpsertKeepsLeaves(s, comps[1..], meta, q[1..]);
          EmptyDirHasNothing(q[1..]);
        }
      } else if comps[0].CurDir? || comps[0].RootDir? {
        UpsertKeepsLeaves(d, comps[1..], meta, q);
      }
    }
  }

  /** The upserted directory carries the new metadata; other directories keep theirs. */
  lemma {:induction false} UpsertedMeta(d: Dir, comps: seq<Component>, meta: Meta, q: seq<Bytes>)
    requires SortedTree(d) && EditPath(d, comps, Upsert(meta)).1.Ok?
    ensures var p := PathNames(comps);
            DirMetaAt(EditPath(d, comps, Upsert(meta)).0, q)
            == if q == p then Some(meta)
               else if DirMetaAt(d, q).None? && q <= p then Some(DEFAULT_META)
               else DirMetaAt(d, q)
    decreases |comps|
  {
    hide Put, Entry, Less, Sorted;
    var p := PathNames(comps);
    if comps == [] || (|comps| == 1 && !comps[0].Normal?) {
      assert p == [];
    } else if comps[0].Normal? {
      var name := comps[0].name;
      var s := GetOrCreate(d, name).value;
      SortedSub(d, name);
      EmptyDirSorted();
      assert p == [name] + PathNames(comps[1..]);
      if q != [] {
        var (s', r) := EditPath(s, comps[1..], Upsert(meta));
        EntryPut(d.children, name, SubDir(s'), q[0]);
        if q[0] == name {
          UpsertedMeta(s, comps[1..], meta, q[1..]);
          EmptyDirHasNothing(q[1..]);
          assert q == [name] + q[1..];
          assert q <= p <==> q[1..] <= PathNames(comps[1..]);
        }
      }
    } else {
      UpsertedMeta(d, comps[1..], meta, q);
    }
  }
}
