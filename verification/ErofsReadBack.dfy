/**
 A finished image read back: the reader of peerofs/src/disk.rs finds in it exactly the
 tree that the builder of peerofs/src/build.rs put there.
 */
module ErofsReadBack {
  import opened Bytes
  import opened Paths
  import opened ErofsDisk
  import opened ErofsDirents
  import opened ErofsTree
  import opened ErofsXattr
  import opened ErofsPacking
  import opened ErofsImage
  import opened ErofsStages

  // ---------- a finished tree ----------

  /** Everything the reader needs to find a directory and what is below it. */
  ghost predicate Finished(img: Bytes, mb: nat, d: Dir, parent: nat) {
    && DirFinished(img, mb, d, parent)
    && forall i :: 0 <= i < |d.children| ==> NodeFinished(img, mb, d.children[i].node, d.diskId.value)
  }

  /** The directory itself: its inode, its dirent blocks, its names. */
  predicate DirFinished(img: Bytes, mb: nat, d: Dir, parent: nat) {
    && DirRecordAt(img, mb, d, 0, |img|) && DirentsAt(img, d, parent)
    && Prepared(d, d.startBlock) && d.startBlock + |d.perBlock| <= mb
    && Sorted(d.children) && DotsOk(d.children)
  }

  ghost predicate NodeFinished(img: Bytes, mb: nat, n: Dirent, parent: nat) {
    match n
    case SubDir(s) => Finished(img, mb, s, parent)
    case Dot => true
    case DotDot => true
    case _ => LeafRecordAt(img, mb, n, 0, |img|) && Backed(n.leaf, mb)
  }

  lemma WiderRecord(img: Bytes, mb: nat, id: Option<nat>, rec: Bytes, lo: nat, hi: nat)
    requires RecordAt(img, mb, id, rec, lo, hi)
    ensures RecordAt(img, mb, id, rec, 0, |img|)
  {
  }

  lemma {:induction false} EntryGrows(kids: seq<Child>, kids': seq<Child>, name: Bytes)
    requires |kids| == |kids'|
    requires forall i :: 0 <= i < |kids| ==> kids'[i].name == kids[i].name && NodeGrows(kids[i].node, kids'[i].node)
    ensures Entry(kids, name).Some? <==> Entry(kids', name).Some?
    ensures Entry(kids, name).Some? ==> NodeGrows(Entry(kids, name).value, Entry(kids', name).value)
  {
    if kids != [] && kids[0].name != name { EntryGrows(kids[1..], kids'[1..], name); }
  }

  /** The walks change no leaf except for its disk id. */
  lemma {:induction false} LeafAtGrows(d: Dir, d': Dir, path: seq<Bytes>)
    requires Grows(d, d')
    ensures LeafAt(d, path).Some? <==> LeafAt(d', path).Some?
    ensures LeafAt(d, path).Some? ==> NodeGrows(LeafAt(d, path).value, LeafAt(d', path).value)
    decreases |path|
  {
    if path != [] {
      EntryGrows(d.children, d'.children, path[0]);
      match Entry(d.children, path[0])
      case Some(SubDir(s)) => LeafAtGrows(s, Entry(d'.children, path[0]).value.dir, path[1..]);
      case _ =>
    }
  }

  lemma GrownShape(d0: Dir, d: Dir, hi: nat)
    requires Fresh(d0, hi) && Grows(d0, d)
    ensures Sorted(d.children) && DotsOk(d.children)
  {
    EntryGrows(d0.children, d.children, DOT_NAME);
    EntryGrows(d0.children, d.children, DOTDOT_NAME);
    forall i | 0 <= i < |d.children|
      ensures (d.children[i].node.Dot? ==> d.children[i].name == DOT_NAME)
      ensures (d.children[i].node.DotDot? ==> d.children[i].name == DOTDOT_NAME)
    {
      assert NodeGrows(d0.children[i].node, d.children[i].node);
    }
  }

  lemma DirAssembled(img: Bytes, mb: nat, d0: Dir, d: Dir, hi: nat, at: nat, parent: nat, lo: nat, hi1: nat)
    requires Fresh(d0, hi) && Grows(d0, d) && Placed(d, at) && at + BlocksOf(d) <= mb
    requires DirInodes(img, mb, d, lo, hi1) && DirentsWritten(img, d, parent)
    ensures DirFinished(img, mb, d, parent)
  {
    hide Record, Blocks, Packs, LegalKids, IdsFit, NodeFresh;
    GrownShape(d0, d, hi);
    WiderRecord(img, mb, d.diskId, Record(DirInode(d).value, StoreAll(d.meta.xattrs), None), lo, hi1);
  }

  lemma LeafAssembled(img: Bytes, mb: nat, n0: Dirent, n: Dirent, hi: nat, lo: nat, hi2: nat)
    requires IsLeaf(n) && NodeFresh(n0, hi) && NodeGrows(n0, n) && hi <= mb && NodeLeafInodes(img, mb, n, lo, hi2)
    ensures LeafRecordAt(img, mb, n, 0, |img|) && Backed(n.leaf, mb)
  {
    hide Record;
    WiderRecord(img, mb, n.leaf.diskId, Record(LeafInode(n).value, StoreAll(n.leaf.meta.xattrs), n.leaf.tail), lo, hi2);
  }

  /** The results of the four walks together make a finished tree. */
  lemma {:induction false} Assemble(img: Bytes, mb: nat, d0: Dir, d: Dir, hi: nat, at: nat, parent: nat,
                                    lo1: nat, hi1: nat, lo2: nat, hi2: nat)
    requires Fresh(d0, hi) && Grows(d0, d) && hi <= mb && Placed(d, at) && at + BlocksOf(d) <= mb
    requires DirInodes(img, mb, d, lo1, hi1) && LeafInodes(img, mb, d, lo2, hi2) && DirentsWritten(img, d, parent)
    ensures Finished(img, mb, d, parent)
    decreases d
  {
    hide DirFinished, DirRecordAt, LeafRecordAt, Backed, DirentsAt, Prepared, DotsOk, Sorted;
    DirAssembled(img, mb, d0, d, hi, at, parent, lo1, hi1);
    FinishedId(img, mb, d, parent);
    forall i | 0 <= i < |d.children| ensures NodeFinished(img, mb, d.children[i].node, d.diskId.value) {
      var n := d.children[i].node;
      assert NodeFresh(d0.children[i].node, hi) && NodeGrows(d0.children[i].node, n);
      assert NodeLeafInodes(img, mb, n, lo2, hi2);
      if n.SubDir? {
        assert ChildPlaced(d, at, i);
        ChildRange(d, at, i);
        Assemble(img, mb, d0.children[i].node.dir, n.dir, hi, ChildBlock(d, at, i), d.diskId.value, lo1, hi1, lo2, hi2);
      } else if IsLeaf(n) {
        LeafAssembled(img, mb, d0.children[i].node, n, hi, lo2, hi2);
      }
    }
  }

  lemma FinishedId(img: Bytes, mb: nat, d: Dir, parent: nat)
    requires DirFinished(img, mb, d, parent)
    ensures d.diskId.Some?
  {
  }

  /** With inodes written everywhere, every directory can be listed. */
  lemma {:induction false} ReadyToList(img: Bytes, mb: nat, d: Dir, at: nat, parent: nat, lo1: nat, hi1: nat,
                                       lo2: nat, hi2: nat)
    requires LegalTree(d) && Placed(d, at) && parent < 0x1_0000_0000
    requires DirInodes(img, mb, d, lo1, hi1) && LeafInodes(img, mb, d, lo2, hi2)
    ensures AllWritable(d, parent)
    decreases d
  {
    var self := d.diskId.value;
    forall i | 0 <= i < |d.children|
      ensures ChildId(d.children[i].node, Some(self), Some(parent)).Some?
      ensures NodeId(d.children[i].node, self, parent) < 0x1_0000_0000 && ChildWritable(d, i)
    {
      var n := d.children[i].node;
      assert NodeLeafInodes(img, mb, n, lo2, hi2) && NodeLegal(n);
      if n.SubDir? {
        assert ChildPlaced(d, at, i);
        ReadyToList(img, mb, n.dir, ChildBlock(d, at, i), self, lo1, hi1, lo2, hi2);
      }
    }
  }

  // ---------- inodes ----------

  predicate InodeFits(ino: Inode) {
    && ino.extended && ino.xattrCount < 0x1_0000 && ino.mode < 0x1_0000 && ino.size < 0x1_0000_0000_0000_0000
    && ino.info < 0x1_0000_0000 && ino.uid < 0x1_0000_0000 && ino.gid < 0x1_0000_0000
    && ino.mtime < 0x1_0000_0000_0000_0000 && ino.nlink < 0x1_0000_0000
  }

  lemma ExtendedShape(fl: nat, ino: Inode)
    requires InodeFits(ino) && fl < 0x1_0000
    ensures SameShape(ExtendedFields(fl, ino), EXTENDED_SHAPE) && Fits(ExtendedFields(fl, ino))
  {
    WidthBounds();
    var f, g := ExtendedFields(fl, ino), EXTENDED_SHAPE;
    var f6, g6 := f.rest.rest.rest.rest.rest.rest, g.rest.rest.rest.rest.rest.rest;
    assert SameShape(f6.rest.rest.rest.rest.rest, g6.rest.rest.rest.rest.rest) && Fits(f6.rest.rest.rest.rest.rest);
    assert SameShape(f6.rest.rest.rest, g6.rest.rest.rest) && Fits(f6.rest.rest.rest);
    assert SameShape(f6.rest, g6.rest) && Fits(f6.rest);
    assert SameShape(f.rest.rest.rest.rest.rest, g.rest.rest.rest.rest.rest) && Fits(f.rest.rest.rest.rest.rest);
    assert SameShape(f.rest.rest.rest, g.rest.rest.rest) && Fits(f.rest.rest.rest);
    assert SameShape(f.rest, g.rest) && Fits(f.rest);
  }

  /** The format field comes first. */
  lemma FormatFirst(fl: nat, ino: Inode, rest: Bytes)
    requires fl < 0x1_0000
    ensures var data := Pack(ExtendedFields(fl, ino)) + rest; |data| >= 2 && FromLE(data[..2]) == fl
  {
    hide Pow256, FromLE, ToLE;
    var f := ExtendedFields(fl, ino);
    var data := Pack(f) + rest;
    WidthBounds();
    LERoundTrip(fl, 2);
    assert Pack(f) == ToLE(fl, 2) + Pack(f.rest);
    assert data[..2] == ToLE(fl, 2);
  }

  /** An inode parsed from its bytes, whatever follows them. */
  lemma InodeRoundTrip(id: nat, ino: Inode, rest: Bytes)
    requires InodeFits(ino)
    ensures ParseInode(id, InodeBytes(ino) + rest) == Ok(ino.(diskId := id))
  {
    hide FromLE, Pack, Unpack, Fits, SameShape, COMPACT_SHAPE, EXTENDED_SHAPE;
    var fl := 1 + 2 * LayoutCode(ino.layout);
    ExtendedShape(fl, ino);
    PackRoundTrip(ExtendedFields(fl, ino), EXTENDED_SHAPE, rest);
    FormatFirst(fl, ino, rest);
  }

  /** The superblock of an image made by the builder. */
  predicate BuiltSuper(sb: Superblock, mb: nat) {
    sb.blkszbits == 12 && sb.metaBlkaddr == mb
  }

  lemma BlockSizeIs(sb: Superblock)
    requires sb.blkszbits == 12
    ensures BlockSize(sb) == BLOCK
  {
    assert Pow2(8) == 256;
    assert Pow2(10) == 1024;
  }

  /** A record found through its disk id: the inode, and the tail right at `inode_end`. */
  lemma ReadRecord(img: Bytes, sb: Superblock, mb: nat, id: nat, ino: Inode, xs: seq<Stored>, tail: Option<Bytes>)
    requires BuiltSuper(sb, mb) && RecordAt(img, mb, Some(id), Record(ino, xs, tail), 0, |img|)
    requires InodeFits(Counted(ino, xs))
    ensures GetInode(img, sb, id) == Ok(Counted(ino, xs).(diskId := id))
    ensures Has(img, InodeEnd(sb, Counted(ino, xs).(diskId := id)), TailBytes(tail))
  {
    hide ParseInode, Pack, Pow2, XattrCount, XattrBytes;
    BlockSizeIs(sb);
    var off, head := InodeAddr(mb, id), InodeBytes(Counted(ino, xs));
    InodeBytesLen(Counted(ino, xs));
    XattrBytesLen(xs);
    var rest := XattrBytes(xs) + TailBytes(tail);
    assert Record(ino, xs, tail) == head + rest;
    HasSlice(img, off, head + rest);
    assert img[off..] == head + (rest + img[off + |head + rest|..]);
    InodeRoundTrip(id, Counted(ino, xs), rest + img[off + |head + rest|..]);
    assert Record(ino, xs, tail) == head + XattrBytes(xs) + TailBytes(tail) + [];
    HasPart(img, off, head + XattrBytes(xs), TailBytes(tail), []);
  }

  /** The inode the reader gets for a node. */
  function NodeInode(n: Dirent): Inode {
    match n
    case SubDir(d) => Counted(InodeOr(DirInode(d)), StoreAll(d.meta.xattrs)).(diskId := NodeDiskId(n))
    case Dot => BLANK_INODE
    case DotDot => BLANK_INODE
    case _ => Counted(InodeOr(LeafInode(n)), StoreAll(n.leaf.meta.xattrs)).(diskId := NodeDiskId(n))
  }

  function InodeOr(r: Result<Inode, BuildError>): Inode {
    if r.Ok? then r.value else BLANK_INODE
  }

  function NodeDiskId(n: Dirent): nat {
    NodeId(n, 0, 0)
  }

  /** The inode read for a file or symlink tells its metadata, and the type bits do not disturb it. */
  lemma LeafInodeTells(n: Dirent)
    requires IsLeaf(n) && LeafInode(n).Ok?
    ensures var ino, m := NodeInode(n), n.leaf.meta;
      && ino.uid == m.uid && ino.gid == m.gid && ino.mtime == m.mtime && ino.mode % 4096 == m.mode
      && ino.size == n.leaf.len && ino.nlink == n.leaf.nLinks
      && FileTypeOf(ino) == (if n.File? then RegularFile else Symlink)
  {
    hide StoreAll, XattrCount;
    TypeNibble(if n.File? then TYPE_REGULAR else TYPE_SYMLINK, n.leaf.meta.mode);
  }

  lemma DirInodeTells(d: Dir)
    requires DirInode(d).Ok?
    ensures var ino, m := NodeInode(SubDir(d)), d.meta;
      && ino.uid == m.uid && ino.gid == m.gid && ino.mtime == m.mtime && ino.mode % 4096 == m.mode
      && FileTypeOf(ino) == Directory
  {
    TypeNibble(TYPE_DIR, d.meta.mode);
  }

  // ---------- file data ----------

  lemma ReadLeafInode(img: Bytes, sb: Superblock, mb: nat, n: Dirent, parent: nat)
    requires BuiltSuper(sb, mb) && IsLeaf(n) && NodeFinished(img, mb, n, parent)
    ensures GetInode(img, sb, n.leaf.diskId.value) == Ok(NodeInode(n))
    ensures Has(img, InodeEnd(sb, NodeInode(n)), TailBytes(n.leaf.tail))
  {
    hide ParseInode, Record, EntriesOk;
    ReadRecord(img, sb, mb, n.leaf.diskId.value, LeafInode(n).value, StoreAll(n.leaf.meta.xattrs), n.leaf.tail);
  }

  /** The writer's split into blocks and tail is the reader's. */
  lemma SplitAgrees(len: nat)
    ensures SizeTailLen(len).2 > 0 ==> BlockTailLen(BLOCK, len) == (SizeTailLen(len).1, SizeTailLen(len).2)
  {
  }

  lemma InlineData(img: Bytes, sb: Superblock, mb: nat, ino: Inode, l: Leaf)
    requires BlockSize(sb) == BLOCK && mb < 0x1_0000_0000 && BLOCK * mb <= |img| && Backed(l, mb) && l.tail.Some?
    requires ino.layout == FlatInline && ino.size == l.len && ino.info == l.startBlock
    requires Has(img, InodeEnd(sb, ino), l.tail.value)
    ensures GetData(img, sb, ino).Ok?
    ensures var (block, tail) := GetData(img, sb, ino).value; block + tail == LeafData(img, l)
  {
    SplitAgrees(l.len);
    var blockLen := SizeTailLen(l.len).1;
    if blockLen > 0 {
      assert l.startBlock != NULL_ADDR && BlockOffset(sb, l.startBlock) == BLOCK * l.startBlock;
    } else {
      var begin := BlockOffset(sb, l.startBlock);
      assert [] + l.tail.value == l.tail.value;
    }
  }

  lemma PlainData(img: Bytes, sb: Superblock, mb: nat, ino: Inode, l: Leaf)
    requires BlockSize(sb) == BLOCK && BLOCK * mb <= |img| && Backed(l, mb) && l.tail.None?
    requires ino.layout == FlatPlain && ino.size == l.len && ino.info == l.startBlock
    ensures GetData(img, sb, ino).Ok?
    ensures var (block, tail) := GetData(img, sb, ino).value; block + tail == LeafData(img, l)
  {
    assert l.len > 0 ==> BlockOffset(sb, l.startBlock) == BLOCK * l.startBlock;
  }

  /** `get_data` of a file or symlink gives its bytes. */
  lemma ReadLeafData(img: Bytes, sb: Superblock, mb: nat, n: Dirent, parent: nat)
    requires BuiltSuper(sb, mb) && mb < 0x1_0000_0000 && IsLeaf(n) && NodeFinished(img, mb, n, parent)
    requires BLOCK * mb <= |img|
    ensures GetData(img, sb, NodeInode(n)).Ok?
    ensures var (block, tail) := GetData(img, sb, NodeInode(n)).value; block + tail == LeafData(img, n.leaf)
  {
    BlockSizeIs(sb);
    ReadLeafInode(img, sb, mb, n, parent);
    if n.leaf.tail.Some? {
      InlineData(img, sb, mb, NodeInode(n), n.leaf);
    } else {
      PlainData(img, sb, mb, NodeInode(n), n.leaf);
    }
  }

  // ---------- directories ----------

  lemma LastGroupLen(kids: seq<Child>, counts: seq<nat>, self: nat, parent: nat)
    requires Packing(kids, counts) && counts != []
    ensures var n := |counts| - 1; var c := counts[n];
      && c <= |kids| && 0 < Span(kids, |kids| - c, |kids|) <= BLOCK
      && BodyLen(ItemGroups(kids, counts, 0, self, parent)[n]) == Span(kids, |kids| - c, |kids|)
  {
    var n := |counts| - 1;
    PacksAt(kids, counts, 0, n);
    ItemGroupAt(kids, counts, 0, self, parent, n);
    ItemsLen(kids, Sum(counts[..n]), |kids|, self, parent);
  }

  /** `total_size` is the length of the directory's data. */
  lemma DirDataLen(d: Dir, parent: nat)
    requires Writable(d, parent) && Prepared(d, d.startBlock)
    ensures |Flat(DirGroups(d, parent))| == d.totalSize && 0 < d.totalSize <= BLOCK * |d.perBlock|
  {
    hide Packs, LegalKids, IdsFit, Items, Span, Sum;
    LastGroupLen(d.children, d.perBlock, d.diskId.value, parent);
  }

  lemma TypeNibble(typ: nat, m: Mode)
    requires typ < 16 && typ * 4096 + m < 0x1_0000
    ensures (typ * 4096 + m) / 4096 % 16 == typ && (typ * 4096 + m) % 4096 == m
  {
    assert m < 4096;
  }

  lemma DirInodeFits(d: Dir, xs: seq<Stored>)
    requires DirInode(d).Ok? && XattrCount(xs) < 0x1_0000 && d.totalSize < 0x1_0000_0000_0000_0000
    ensures InodeFits(Counted(DirInode(d).value, xs)) && FileTypeOf(DirInode(d).value) == Directory
  {
    TypeNibble(TYPE_DIR, d.meta.mode);
  }

  lemma ReadDirInode(img: Bytes, sb: Superblock, mb: nat, d: Dir, parent: nat)
    requires BuiltSuper(sb, mb) && mb < 0x1_0000_0000 && DirFinished(img, mb, d, parent)
    ensures GetInode(img, sb, d.diskId.value) == Ok(NodeInode(SubDir(d)))
    ensures FileTypeOf(NodeInode(SubDir(d))) == Directory
  {
    hide ParseInode, InodeBytes, Blocks;
    var ino, xs := DirInode(d).value, StoreAll(d.meta.xattrs);
    assert InodeFits(Counted(ino, xs)) && FileTypeOf(ino) == Directory by {
      DirDataLen(d, parent);
      DirInodeFits(d, xs);
    }
    ReadRecord(img, sb, mb, d.diskId.value, ino, xs, None);
  }

  lemma PlainHas(img: Bytes, sb: Superblock, ino: Inode, start: nat, data: Bytes)
    requires BlockSize(sb) == BLOCK && ino.layout == FlatPlain && ino.info == start && ino.size == |data| > 0
    requires Has(img, BLOCK * start, data)
    ensures GetData(img, sb, ino) == Ok((data, []))
  {
  }

  lemma ReadDirData(img: Bytes, sb: Superblock, mb: nat, d: Dir, parent: nat)
    requires BuiltSuper(sb, mb) && DirFinished(img, mb, d, parent)
    ensures GetData(img, sb, NodeInode(SubDir(d))) == Ok((Flat(DirGroups(d, parent)), []))
  {
    BlockSizeIs(sb);
    var groups := DirGroups(d, parent);
    assert Has(img, BLOCK * d.startBlock, Flat(groups)) by {
      FlatPrefix(groups);
      HasPrefix(img, BLOCK * d.startBlock, Flat(groups), Blocks(groups));
    }
    DirDataLen(d, parent);
    PlainHas(img, sb, NodeInode(SubDir(d)), d.startBlock, Flat(groups));
  }

  /** The entries of a directory, in the order they are stored. */
  function DirItems(d: Dir, parent: nat): seq<DirentItem>
    requires d.diskId.Some?
  {
    Items(d.children, 0, |d.children|, d.diskId.value, parent)
  }

  lemma ListDir(d: Dir, parent: nat, name: Bytes)
    requires Writable(d, parent) && Prepared(d, d.startBlock)
    ensures Dirents(Flat(DirGroups(d, parent)), [], BLOCK).Ok?
    ensures var c := Dirents(Flat(DirGroups(d, parent)), [], BLOCK).value;
            ReadAll(c) == Ok(DirItems(d, parent)) && FindEntry(c, name) == Ok(FirstNamed(DirItems(d, parent), name))
  {
    hide FindEntry, ReadAll, FirstNamed, Flat, ItemGroups, Items, Packs, LegalKids, IdsFit;
    var groups := DirGroups(d, parent);
    assert Flat(groups) + [] == Flat(groups);
    DirentRoundTrip(Flat(groups), [], groups);
    ItemGroupsConcat(d.children, d.perBlock, 0, d.diskId.value, parent);
    FindInRead(Dirents(Flat(DirGroups(d, parent)), [], BLOCK).value, name);
  }

  /** Searching the stored entries is searching the child map. */
  lemma FindChild(kids: seq<Child>, self: nat, parent: nat, name: Bytes)
    requires Sorted(kids)
    ensures FirstNamed(Items(kids, 0, |kids|, self, parent), name)
            == if Entry(kids, name).None? then None
               else Some(ItemOf(Child(name, Entry(kids, name).value), self, parent))
  {
    var items := Items(kids, 0, |kids|, self, parent);
    EntryMember(kids, name);
    if Entry(kids, name).None? {
      FirstNamedNone(items, name);
    } else {
      var k :| 0 <= k < |kids| && kids[k] == Child(name, Entry(kids, name).value);
      forall i, j | 0 <= i < j < |items| ensures items[i].name != items[j].name {
        LessIrreflexive(kids[i].name);
      }
      FirstNamedIs(items, k);
    }
  }

  /** One lookup step from a directory of the finished image. */
  lemma StepFinds(img: Bytes, sb: Superblock, mb: nat, d: Dir, parent: nat, name: Bytes)
    requires BuiltSuper(sb, mb) && mb < 0x1_0000_0000 && DirFinished(img, mb, d, parent)
    ensures Entry(d.children, name).None? ==> Step(img, sb, NodeInode(SubDir(d)), name) == Ok(None)
    ensures Entry(d.children, name).Some? ==>
      var got := GetInode(img, sb, NodeId(Entry(d.children, name).value, d.diskId.value, parent));
      got.Ok? ==> Step(img, sb, NodeInode(SubDir(d)), name) == Ok(Some(got.value))
  {
    hide Flat, Packs, ParseInode, Blocks, Prepared, FirstNamed;
    BlockSizeIs(sb);
    ReadDirInode(img, sb, mb, d, parent);
    ReadDirData(img, sb, mb, d, parent);
    ListDir(d, parent, name);
    FindChild(d.children, d.diskId.value, parent, name);
    EntryMember(d.children, name);
  }

  // ---------- path lookup ----------

  /** Where a walk through the tree stands: the node, and the directories above it. */
  datatype Spot = Spot(above: seq<Dir>, node: Dirent)

  /** Following one name in the tree: "." stays, ".." goes up and stays at the root. */
  function Follow(s: Spot, name: Bytes): Option<Spot>
    requires s.node.SubDir?
  {
    match Entry(s.node.dir.children, name)
    case None => None
    case Some(Dot) => Some(s)
    case Some(DotDot) =>
      var n := |s.above|;
      if n == 0 then Some(s) else Some(Spot(s.above[..n - 1], SubDir(s.above[n - 1])))
    case Some(child) => Some(Spot(s.above + [s.node.dir], child))
  }

  /** Reference: resolving a list of names in the tree itself. */
  function Resolve(s: Spot, names: seq<Bytes>): Result<Option<Dirent>, ReadError>
    decreases |names|
  {
    if names == [] then Ok(Some(s.node))
    else if !s.node.SubDir? then Err(NotDir)
    else
      match Follow(s, names[0])
      case None => Ok(None)
      case Some(next) => Resolve(next, names[1..])
  }

  /** The id ".." names in `d` below the directories `above`. */
  function ParentId(above: seq<Dir>, d: Dir): nat {
    if above == [] then IdOrZero(d.diskId) else IdOrZero(above[|above| - 1].diskId)
  }

  /** Every directory on the way down is finished. */
  ghost predicate AboveFinished(img: Bytes, mb: nat, above: seq<Dir>)
    decreases |above|
  {
    var n := |above| - 1;
    above != [] ==> AboveFinished(img, mb, above[..n]) && Finished(img, mb, above[n], ParentId(above[..n], above[n]))
  }

  ghost predicate SpotFinished(img: Bytes, mb: nat, s: Spot) {
    && AboveFinished(img, mb, s.above)
    && (if s.node.SubDir? then Finished(img, mb, s.node.dir, ParentId(s.above, s.node.dir))
        else IsLeaf(s.node) && NodeFinished(img, mb, s.node, 0))
  }

  lemma FinishedHasId(img: Bytes, mb: nat, d: Dir, parent: nat)
    requires Finished(img, mb, d, parent)
    ensures d.diskId.Some?
  {
  }

  lemma FollowDown(img: Bytes, mb: nat, above: seq<Dir>, d: Dir, name: Bytes, child: Dirent)
    requires AboveFinished(img, mb, above) && Finished(img, mb, d, ParentId(above, d))
    requires Child(name, child) in d.children
    requires !child.Dot? && !child.DotDot?
    ensures SpotFinished(img, mb, Spot(above + [d], child))
  {
    hide DirFinished, LeafRecordAt, Backed;
    FinishedHasId(img, mb, d, ParentId(above, d));
    assert (above + [d])[..|above|] == above;
    assert NodeFinished(img, mb, child, d.diskId.value);
  }

  lemma FollowFinished(img: Bytes, mb: nat, s: Spot, name: Bytes)
    requires SpotFinished(img, mb, s) && s.node.SubDir? && Follow(s, name).Some?
    ensures SpotFinished(img, mb, Follow(s, name).value)
  {
    hide DirFinished, LeafRecordAt, Backed;
    var d := s.node.dir;
    EntryMember(d.children, name);
    var child := Entry(d.children, name).value;
    if !child.Dot? && !child.DotDot? { FollowDown(img, mb, s.above, d, name, child); }
  }

  /** The inode found for a spot's node. */
  lemma SpotInode(img: Bytes, sb: Superblock, mb: nat, s: Spot)
    requires BuiltSuper(sb, mb) && mb < 0x1_0000_0000 && SpotFinished(img, mb, s)
    ensures GetInode(img, sb, NodeDiskId(s.node)) == Ok(NodeInode(s.node))
  {
    hide Record, ParseInode, Prepared, DirentsAt, Backed, BuiltSuper;
    if s.node.SubDir? {
      ReadDirInode(img, sb, mb, s.node.dir, ParentId(s.above, s.node.dir));
    } else {
      ReadLeafInode(img, sb, mb, s.node, 0);
    }
  }

  /** The disk id stored for a name is that of the node the name leads to. */
  lemma FollowId(s: Spot, name: Bytes)
    requires s.node.SubDir? && s.node.dir.diskId.Some? && Follow(s, name).Some?
    ensures NodeId(Entry(s.node.dir.children, name).value, s.node.dir.diskId.value, ParentId(s.above, s.node.dir))
            == NodeDiskId(Follow(s, name).value.node)
  {
  }

  /** One name: the reader goes to the inode of the node that the tree gives. */
  lemma StepFollows(img: Bytes, sb: Superblock, mb: nat, s: Spot, name: Bytes)
    requires BuiltSuper(sb, mb) && mb < 0x1_0000_0000 && SpotFinished(img, mb, s) && s.node.SubDir?
    ensures Step(img, sb, NodeInode(s.node), name)
            == if Follow(s, name).None? then Ok(None) else Ok(Some(NodeInode(Follow(s, name).value.node)))
  {
    hide Step, GetInode, NodeInode, BuiltSuper, NodeId, IdOrZero, DirFinished;
    FinishedHasId(img, mb, s.node.dir, ParentId(s.above, s.node.dir));
    StepFinds(img, sb, mb, s.node.dir, ParentId(s.above, s.node.dir), name);
    if Follow(s, name).Some? {
      FollowFinished(img, mb, s, name);
      SpotInode(img, sb, mb, Follow(s, name).value);
      FollowId(s, name);
    }
  }

  lemma LeafType(n: Dirent)
    requires IsLeaf(n) && LeafInode(n).Ok?
    ensures FileTypeOf(NodeInode(n)) == if n.File? then RegularFile else Symlink
    ensures NodeInode(n).size == n.leaf.len
  {
    hide StoreAll, XattrCount;
    TypeNibble(if n.File? then TYPE_REGULAR else TYPE_SYMLINK, n.leaf.meta.mode);
  }

  /** Lookup in the image goes where the names lead in the tree, through "." and ".." too. */
  lemma {:induction false} LookupFollows(img: Bytes, sb: Superblock, mb: nat, s: Spot, names: seq<Bytes>)
    requires BuiltSuper(sb, mb) && mb < 0x1_0000_0000 && SpotFinished(img, mb, s)
    ensures LookupFrom(img, sb, NodeInode(s.node), names) == Answer(Resolve(s, names))
    decreases |names|
  {
    hide NodeInode, Finished, Follow, GetInode, Unpack;
    if names != [] {
      if s.node.SubDir? {
        StepFollows(img, sb, mb, s, names[0]);
        if Follow(s, names[0]).Some? {
          FollowFinished(img, mb, s, names[0]);
          LookupFollows(img, sb, mb, Follow(s, names[0]).value, names[1..]);
        }
      } else {
        LeafType(s.node);
      }
    }
  }

  /** The reader's answer for what the names lead to in the tree. */
  function Answer(want: Result<Option<Dirent>, ReadError>): Result<Option<Inode>, ReadError> {
    match want
    case Err(e) => Err(e)
    case Ok(None) => Ok(None)
    case Ok(Some(n)) => Ok(Some(NodeInode(n)))
  }

  // ---------- the whole image ----------

  predicate SuperFits(sb: Superblock) {
    && sb.blkszbits < 0x100 && sb.rootDiskId < 0x1_0000
    && sb.inos < 0x1_0000_0000_0000_0000 && sb.metaBlkaddr < 0x1_0000_0000
  }

  lemma SuperShape(sb: Superblock)
    requires SuperFits(sb)
    ensures SameShape(SuperFields(SUPER_MAGIC, sb), SUPER_SHAPE) && Fits(SuperFields(SUPER_MAGIC, sb))
    ensures Width(SUPER_SHAPE) == 128
  {
    WidthBounds();
    var f, g := SuperFields(SUPER_MAGIC, sb), SUPER_SHAPE;
    var f6, g6 := f.rest.rest.rest.rest.rest.rest, g.rest.rest.rest.rest.rest.rest;
    assert SameShape(f6.rest.rest.rest.rest.rest, g6.rest.rest.rest.rest.rest) && Fits(f6.rest.rest.rest.rest.rest);
    assert SameShape(f6.rest.rest.rest, g6.rest.rest.rest) && Fits(f6.rest.rest.rest);
    assert SameShape(f6.rest, g6.rest) && Fits(f6.rest);
    assert SameShape(f.rest.rest.rest.rest.rest, g.rest.rest.rest.rest.rest) && Fits(f.rest.rest.rest.rest.rest);
    assert SameShape(f.rest.rest.rest, g.rest.rest.rest) && Fits(f.rest.rest.rest);
    assert SameShape(f.rest, g.rest) && Fits(f.rest);
    assert Width(g6.rest.rest.rest.rest.rest) == 84;
    assert Width(g6.rest.rest.rest) == 92;
    assert Width(g6.rest) == 104;
    assert Width(g.rest.rest.rest.rest.rest) == 114;
    assert Width(g.rest.rest.rest) == 116;
    assert Width(g.rest) == 124;
  }

  lemma ReadSuper(img: Bytes, sb: Superblock)
    requires SuperFits(sb) && Has(img, SUPER_OFFSET, SuperBytes(sb))
    ensures OpenImage(img) == Ok(sb)
  {
    SuperShape(sb);
    HasSlice(img, SUPER_OFFSET, SuperBytes(sb));
    PackRoundTrip(SuperFields(SUPER_MAGIC, sb), SUPER_SHAPE, img[SUPER_OFFSET + |SuperBytes(sb)|..]);
  }

  lemma {:induction false} ResolveLeaf(above: seq<Dir>, d: Dir, path: seq<Bytes>)
    requires LeafAt(d, path).Some?
    ensures Resolve(Spot(above, SubDir(d)), path) == Ok(Some(LeafAt(d, path).value))
    decreases |path|
  {
    var n := Entry(d.children, path[0]).value;
    if n.SubDir? { ResolveLeaf(above + [d], n.dir, path[1..]); }
  }

  lemma {:induction false} LeafAtFinished(img: Bytes, mb: nat, d: Dir, parent: nat, path: seq<Bytes>)
    requires Finished(img, mb, d, parent) && LeafAt(d, path).Some?
    ensures IsLeaf(LeafAt(d, path).value) && NodeFinished(img, mb, LeafAt(d, path).value, 0)
    decreases |path|
  {
    EntryMember(d.children, path[0]);
    var n := Entry(d.children, path[0]).value;
    assert NodeFinished(img, mb, n, d.diskId.value);
    if n.SubDir? { LeafAtFinished(img, mb, n.dir, d.diskId.value, path[1..]); }
  }

  /** An image with this superblock and this finished tree. */
  ghost predicate Complete(img: Bytes, sb: Superblock, root: Dir) {
    && SuperFits(sb) && sb.blkszbits == 12 && BLOCK * sb.metaBlkaddr <= |img|
    && Has(img, SUPER_OFFSET, SuperBytes(sb)) && root.diskId == Some(sb.rootDiskId)
    && Finished(img, sb.metaBlkaddr, root, sb.rootDiskId)
  }

  /** Looking up any names in a complete image is resolving them in the tree. */
  lemma LookupResolves(img: Bytes, sb: Superblock, root: Dir, names: seq<Bytes>)
    requires Complete(img, sb, root)
    ensures Lookup(img, names) == Answer(Resolve(Spot([], SubDir(root)), names))
  {
    hide DirFinished, NodeFinished, LookupFrom, Resolve, Answer, ParseInode, Unpack, NodeInode;
    ReadSuper(img, sb);
    ReadDirInode(img, sb, sb.metaBlkaddr, root, sb.rootDiskId);
    LookupFollows(img, sb, sb.metaBlkaddr, Spot([], SubDir(root)), names);
  }

  /** Every file and symlink reads back with its own bytes, type and size. */
  lemma LeafReadsBack(img: Bytes, sb: Superblock, root: Dir, path: seq<Bytes>)
    requires Complete(img, sb, root) && LeafAt(root, path).Some?
    ensures var n := LeafAt(root, path).value;
      && ReadPath(img, path) == Ok(Some(LeafData(img, n.leaf)))
      && Lookup(img, path) == Ok(Some(NodeInode(n)))
      && FileTypeOf(NodeInode(n)) == (if n.File? then RegularFile else Symlink)
      && NodeInode(n).size == n.leaf.len
  {
    var n := LeafAt(root, path).value;
    ReadSuper(img, sb);
    LookupResolves(img, sb, root, path);
    ResolveLeaf([], root, path);
    LeafAtFinished(img, sb.metaBlkaddr, root, sb.rootDiskId, path);
    ReadLeafData(img, sb, sb.metaBlkaddr, n, 0);
    LeafType(n);
  }
}
