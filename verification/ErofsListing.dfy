/**
 Listing a directory of a finished image (peerofs/src/disk.rs, `get_dirents`): all its entries in order, each
 leading to the inode of its child and telling that inode's type.
 */
module ErofsListing {
  import opened Bytes
  import opened Paths
  import opened ErofsDisk
  import opened ErofsDirents
  import opened ErofsTree
  import opened ErofsXattr
  import opened ErofsPacking
  import opened ErofsImage
  import opened ErofsStages
  import opened ErofsReadBack

  /** `DirentFileType`, the types a tree can have. */
  function TypeNamed(code: nat): FileType {
    if code == 1 then RegularFile else if code == 2 then Directory else if code == 7 then Symlink else OtherType
  }

  /** `get_dirents`, and every entry it gives. */
  function List(img: Bytes, sb: Superblock, ino: Inode): Result<seq<DirentItem>, ReadError> {
    if FileTypeOf(ino) != Directory then Err(NotDir) else
    match GetData(img, sb, ino)
    case Err(e) => Err(e)
    case Ok((block, tail)) =>
      match Dirents(block, tail, BlockSize(sb))
      case Err(e) => Err(e)
      case Ok(c) => ReadAll(c)
  }

  /** Where the names lead, with the directories above. */
  function Reach(s: Spot, names: seq<Bytes>): Option<Spot>
    decreases |names|
  {
    if names == [] then Some(s)
    else if !s.node.SubDir? then None
    else
      match Follow(s, names[0])
      case None => None
      case Some(next) => Reach(next, names[1..])
  }

  lemma {:induction false} ReachIsResolve(s: Spot, names: seq<Bytes>)
    ensures Reach(s, names).Some? ==> Resolve(s, names) == Ok(Some(Reach(s, names).value.node))
    ensures Reach(s, names).None? ==> Resolve(s, names).Err? || Resolve(s, names) == Ok(None)
    decreases |names|
  {
    hide Follow;
    if names != [] && s.node.SubDir? && Follow(s, names[0]).Some? {
      ReachIsResolve(Follow(s, names[0]).value, names[1..]);
    }
  }

  lemma {:induction false} ReachFinished(img: Bytes, mb: nat, s: Spot, names: seq<Bytes>)
    requires SpotFinished(img, mb, s) && Reach(s, names).Some?
    ensures SpotFinished(img, mb, Reach(s, names).value)
    decreases |names|
  {
    hide SpotFinished, Follow;
    if names != [] {
      FollowFinished(img, mb, s, names[0]);
      ReachFinished(img, mb, Follow(s, names[0]).value, names[1..]);
    }
  }

  /** The entry carries the child's name, leads to the inode of the node the name leads to, and tells its type. */
  ghost predicate EntryTells(img: Bytes, sb: Superblock, s: Spot, item: DirentItem, name: Bytes)
    requires s.node.SubDir?
  {
    && item.name == name && Follow(s, name).Some?
    && var ino := NodeInode(Follow(s, name).value.node);
       GetInode(img, sb, item.diskId) == Ok(ino) && TypeNamed(item.fileType) == FileTypeOf(ino)
  }

  ghost predicate ListingOf(img: Bytes, sb: Superblock, s: Spot, items: seq<DirentItem>)
    requires s.node.SubDir?
  {
    var kids := s.node.dir.children;
    |items| == |kids| && forall k :: 0 <= k < |kids| ==> EntryTells(img, sb, s, items[k], kids[k].name)
  }

  lemma ChildIsEntry(kids: seq<Child>, k: nat)
    requires Sorted(kids) && k < |kids|
    ensures Entry(kids, kids[k].name) == Some(kids[k].node)
  {
    EntryMember(kids, kids[k].name);
    var c := Child(kids[k].name, Entry(kids, kids[k].name).value);
    var i :| 0 <= i < |kids| && kids[i] == c;
    LessIrreflexive(kids[k].name);
  }

  lemma DirNode(img: Bytes, mb: nat, s: Spot)
    requires SpotFinished(img, mb, s) && s.node.SubDir?
    ensures var d := s.node.dir; DirFinished(img, mb, d, ParentId(s.above, d)) && d.diskId.Some? && Sorted(d.children)
  {
    hide DirRecordAt, DirentsAt, Prepared;
    FinishedHasId(img, mb, s.node.dir, ParentId(s.above, s.node.dir));
  }

  lemma TypeAgrees(img: Bytes, mb: nat, s: Spot)
    requires SpotFinished(img, mb, s)
    ensures TypeNamed(TypeCode(s.node)) == FileTypeOf(NodeInode(s.node))
  {
    hide StoreAll, XattrCount, Record, DirentsAt, Prepared, Backed, RecordAt, EntriesOk;
    if s.node.SubDir? {
      DirInodeTells(s.node.dir);
    } else {
      LeafType(s.node);
    }
  }

  /** The code written for an entry is that of the node it leads to: "." and ".." lead to directories. */
  lemma CodeFollows(s: Spot, name: Bytes)
    requires s.node.SubDir? && Follow(s, name).Some?
    ensures TypeCode(Entry(s.node.dir.children, name).value) == TypeCode(Follow(s, name).value.node)
  {
  }

  lemma ChildTells(img: Bytes, sb: Superblock, mb: nat, s: Spot, k: nat)
    requires BuiltSuper(sb, mb) && mb < 0x1_0000_0000 && SpotFinished(img, mb, s) && s.node.SubDir?
    requires k < |s.node.dir.children| && s.node.dir.diskId.Some?
    ensures var d := s.node.dir;
      EntryTells(img, sb, s, ItemOf(d.children[k], d.diskId.value, ParentId(s.above, d)), d.children[k].name)
  {
    hide SpotFinished, DirFinished, NodeInode, FileTypeOf, TypeNamed, TypeCode, GetInode, BuiltSuper, NodeId, Sorted,
      ParentId;
    var d := s.node.dir;
    DirNode(img, mb, s);
    ChildIsEntry(d.children, k);
    var name := d.children[k].name;
    FollowFinished(img, mb, s, name);
    SpotInode(img, sb, mb, Follow(s, name).value);
    FollowId(s, name);
    CodeFollows(s, name);
    TypeAgrees(img, mb, Follow(s, name).value);
  }

  lemma ListIs(img: Bytes, sb: Superblock, mb: nat, d: Dir, parent: nat)
    requires BuiltSuper(sb, mb) && mb < 0x1_0000_0000 && DirFinished(img, mb, d, parent)
    ensures List(img, sb, NodeInode(SubDir(d))) == Ok(DirItems(d, parent))
  {
    hide Flat, Packs, ParseInode, Blocks, Prepared, ReadAll, NodeInode, DirRecordAt;
    BlockSizeIs(sb);
    ReadDirInode(img, sb, mb, d, parent);
    ReadDirData(img, sb, mb, d, parent);
    ListDir(d, parent, []);
  }

  /** Listing a directory the tree has. */
  lemma Listed(img: Bytes, sb: Superblock, mb: nat, s: Spot)
    requires BuiltSuper(sb, mb) && mb < 0x1_0000_0000 && SpotFinished(img, mb, s) && s.node.SubDir?
    ensures var r := List(img, sb, NodeInode(s.node)); r.Ok? && ListingOf(img, sb, s, r.value)
  {
    hide SpotFinished, DirFinished, NodeInode, List, EntryTells, BuiltSuper, ParentId, Sorted, ItemOf;
    var d := s.node.dir;
    DirNode(img, mb, s);
    ListIs(img, sb, mb, d, ParentId(s.above, d));
    forall k | 0 <= k < |d.children|
      ensures EntryTells(img, sb, s, DirItems(d, ParentId(s.above, d))[k], d.children[k].name)
    {
      ChildTells(img, sb, mb, s, k);
    }
  }

  /** `lookup`, then the listing of the inode found. */
  function ListAt(img: Bytes, names: seq<Bytes>): Result<Option<seq<DirentItem>>, ReadError> {
    match Lookup(img, names)
    case Err(e) => Err(e)
    case Ok(None) => Ok(None)
    case Ok(Some(ino)) =>
      match List(img, OpenImage(img).value, ino)
      case Err(e) => Err(e)
      case Ok(items) => Ok(Some(items))
  }

  /** Where the names lead to a directory, its listing is that of the tree. */
  ghost predicate ListingKept(img: Bytes, root: Dir, names: seq<Bytes>) {
    var s := Reach(Spot([], SubDir(root)), names);
    s.Some? && s.value.node.SubDir? ==>
      var r := ListAt(img, names);
      r.Ok? && r.value.Some? && OpenImage(img).Ok? && ListingOf(img, OpenImage(img).value, s.value, r.value.value)
  }

  /** Every directory of a complete image is listed as it is in the tree. */
  lemma ListsBack(img: Bytes, sb: Superblock, root: Dir, names: seq<Bytes>)
    requires Complete(img, sb, root)
    ensures ListingKept(img, root, names)
  {
    hide Finished, Resolve, Lookup, OpenImage, NodeInode, Has, List, ListingOf, Reach;
    var start := Spot([], SubDir(root));
    if Reach(start, names).Some? {
      ReadSuper(img, sb);
      LookupResolves(img, sb, root, names);
      ReachIsResolve(start, names);
      ReachFinished(img, sb.metaBlkaddr, start, names);
      if Reach(start, names).value.node.SubDir? { Listed(img, sb, sb.metaBlkaddr, Reach(start, names).value); }
    }
  }
}
