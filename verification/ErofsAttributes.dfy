/**
 The extended attributes in a finished image (peerofs/src/disk.rs): of every directory, file and symlink,
 and at every path.
 */
module ErofsAttributes {
  import opened Bytes
  import opened Paths
  import opened ErofsDisk
  import opened ErofsDirents
  import opened ErofsTree
  import opened ErofsXattr
  import opened ErofsPacking
  import opened ErofsImage
  import opened ErofsStages
  import opened ErofsReadBack

  /** The attributes of a record, found through its disk id: back as given exactly when aligned. */
  lemma ReadXattrs(img: Bytes, sb: Superblock, mb: nat, id: nat, ino: Inode, xs: seq<Stored>, tail: Option<Bytes>)
    requires BuiltSuper(sb, mb) && RecordAt(img, mb, Some(id), Record(ino, xs, tail), 0, |img|)
    requires InodeFits(Counted(ino, xs)) && EntriesOk(xs)
    ensures var got := GetXattrs(img, sb, Counted(ino, xs).(diskId := id));
      && got == Ok(if xs == [] then None else Some(Area(xs)))
      && (xs != [] ==> (ReadStored(got.value.value) == Ok(xs) <==> Aligned(xs)))
  {
    hide InodeBytes, Area, ReadStored, EntriesOk, Aligned, Pow2, XattrCount;
    BlockSizeIs(sb);
    var off, head := InodeAddr(mb, id), InodeBytes(Counted(ino, xs));
    InodeBytesLen(Counted(ino, xs));
    XattrBytesLen(xs);
    XattrRoundTrip(xs);
    CountedXattrs(xs);
    HasPart(img, off, head, XattrBytes(xs), TailBytes(tail));
    if xs != [] {
      assert XattrBytes(xs)[XATTR_HEADER_SIZE..] == Area(xs);
    }
  }

  lemma StoredAreRead(img: Bytes, sb: Superblock, mb: nat, id: nat, ino: Inode, xs: seq<Stored>, tail: Option<Bytes>)
    requires BuiltSuper(sb, mb) && RecordAt(img, mb, Some(id), Record(ino, xs, tail), 0, |img|)
    requires InodeFits(Counted(ino, xs)) && EntriesOk(xs)
    ensures StoredOf(img, sb, Counted(ino, xs).(diskId := id)) == Ok(xs) <==> Aligned(xs)
  {
    hide Record, RecordAt, GetXattrs, ReadStored, Counted, Area, EntriesOk, InodeFits;
    ReadXattrs(img, sb, mb, id, ino, xs, tail);
  }

  /** The metadata of a directory, file or symlink. */
  function MetaOf(n: Dirent): Meta
    requires n.SubDir? || IsLeaf(n)
  {
    if n.SubDir? then n.dir.meta else n.leaf.meta
  }

  /** The node is in the image, as a directory or as a leaf. */
  ghost predicate InImage(img: Bytes, mb: nat, n: Dirent) {
    if n.SubDir? then exists parent :: Finished(img, mb, n.dir, parent)
    else IsLeaf(n) && NodeFinished(img, mb, n, 0)
  }

  lemma DirStored(img: Bytes, sb: Superblock, mb: nat, d: Dir, parent: nat)
    requires BuiltSuper(sb, mb) && mb < 0x1_0000_0000 && DirFinished(img, mb, d, parent)
    ensures var xs := StoreAll(d.meta.xattrs); StoredOf(img, sb, NodeInode(SubDir(d))) == Ok(xs) <==> Aligned(xs)
  {
    hide StoredOf, Aligned, Record, EntriesOk, DirentsAt, BuiltSuper, Blocks, StoreAll;
    var xs := StoreAll(d.meta.xattrs);
    DirSizeFits(img, mb, d, parent);
    DirInodeFits(d, xs);
    StoredAreRead(img, sb, mb, d.diskId.value, DirInode(d).value, xs, None);
  }

  lemma DirSizeFits(img: Bytes, mb: nat, d: Dir, parent: nat)
    requires mb < 0x1_0000_0000 && DirFinished(img, mb, d, parent)
    ensures d.totalSize < 0x1_0000_0000_0000_0000
  {
    hide DirRecordAt, Packing, Packs, Sorted, DotsOk, Has, LegalKids, IdsFit;
    DirDataLen(d, parent);
  }

  lemma LeafStored(img: Bytes, sb: Superblock, mb: nat, n: Dirent)
    requires BuiltSuper(sb, mb) && IsLeaf(n) && NodeFinished(img, mb, n, 0)
    ensures var xs := StoreAll(n.leaf.meta.xattrs); StoredOf(img, sb, NodeInode(n)) == Ok(xs) <==> Aligned(xs)
  {
    hide StoredOf, Aligned, Record, EntriesOk, BuiltSuper, StoreAll;
    StoredAreRead(img, sb, mb, n.leaf.diskId.value, LeafInode(n).value, StoreAll(n.leaf.meta.xattrs), n.leaf.tail);
  }

  /** A node's attributes come back as stored if and only if the list is aligned, and then as given. */
  lemma NodeAttributes(img: Bytes, sb: Superblock, mb: nat, n: Dirent)
    requires BuiltSuper(sb, mb) && mb < 0x1_0000_0000 && InImage(img, mb, n)
    ensures var xs := StoreAll(MetaOf(n).xattrs);
      && (StoredOf(img, sb, NodeInode(n)) == Ok(xs) <==> Aligned(xs))
      && (Aligned(xs) ==> AttributesOf(img, sb, NodeInode(n)) == Ok(MetaOf(n).xattrs))
  {
    hide StoredOf, RestoreAll, Aligned, DirFinished, NodeFinished, BuiltSuper, StoreAll, NodeInode;
    RestoreStored(MetaOf(n).xattrs);
    if n.SubDir? {
      var parent :| Finished(img, mb, n.dir, parent);
      DirStored(img, sb, mb, n.dir, parent);
    } else {
      LeafStored(img, sb, mb, n);
    }
  }

  /** Names that lead somewhere in the tree lead to a node of the image. */
  lemma {:induction false} ResolvedInImage(img: Bytes, mb: nat, s: Spot, names: seq<Bytes>)
    requires SpotFinished(img, mb, s) && Resolve(s, names).Ok? && Resolve(s, names).value.Some?
    ensures InImage(img, mb, Resolve(s, names).value.value)
    decreases |names|
  {
    hide Finished, NodeFinished, Follow;
    if names != [] {
      FollowFinished(img, mb, s, names[0]);
      ResolvedInImage(img, mb, Follow(s, names[0]).value, names[1..]);
    }
  }

  /** `lookup`, then the attributes of the inode found. */
  function AttributesAt(img: Bytes, names: seq<Bytes>): Result<Option<seq<Xattr>>, ReadError> {
    match Lookup(img, names)
    case Err(e) => Err(e)
    case Ok(None) => Ok(None)
    case Ok(Some(ino)) =>
      match AttributesOf(img, OpenImage(img).value, ino)
      case Err(e) => Err(e)
      case Ok(xs) => Ok(Some(xs))
  }

  /** If the names lead to a node with aligned attributes, they are read as given. */
  predicate AttributesKept(img: Bytes, root: Dir, names: seq<Bytes>) {
    var want := Resolve(Spot([], SubDir(root)), names);
    want.Ok? && want.value.Some? && (want.value.value.SubDir? || IsLeaf(want.value.value)) ==>
      var meta := MetaOf(want.value.value);
      Aligned(StoreAll(meta.xattrs)) ==> AttributesAt(img, names) == Ok(Some(meta.xattrs))
  }

  /** At every path of a complete image that leads to a node, aligned attributes are read as given. */
  lemma AttributesReadBack(img: Bytes, sb: Superblock, root: Dir, names: seq<Bytes>)
    requires Complete(img, sb, root)
    ensures AttributesKept(img, root, names)
  {
    hide Finished, Resolve, AttributesOf, Aligned, Lookup, OpenImage, NodeInode, Has, InImage, StoredOf;
    var want := Resolve(Spot([], SubDir(root)), names);
    if want.Ok? && want.value.Some? {
      ReadSuper(img, sb);
      LookupResolves(img, sb, root, names);
      ResolvedInImage(img, sb.metaBlkaddr, Spot([], SubDir(root)), names);
      NodeAttributes(img, sb, sb.metaBlkaddr, want.value.value);
    }
  }
}
