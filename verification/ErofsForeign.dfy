/**
 Images that this builder did not make, as the reader (peerofs/src/disk.rs) sees them: compact inodes, and
 directories and files whose last part, or all of it, stands inline after the inode.
 */
module ErofsForeign {
  import opened Bytes
  import opened ErofsDisk
  import opened ErofsDirents
  import opened ErofsImage
  import opened ErofsReadBack

  // ---------- the superblock ----------

  /** An image is opened exactly if it reaches beyond the superblock and has the magic number there. */
  lemma OpenIff(data: Bytes)
    ensures OpenImage(data).Ok? <==>
      |data| >= SUPER_OFFSET + 128 && FromLE(data[SUPER_OFFSET..SUPER_OFFSET + 4]) == SUPER_MAGIC
  {
    hide FromLE;
    SuperWidth();
    if |data| >= SUPER_OFFSET + 128 {
      var at := data[SUPER_OFFSET..];
      assert at[..4] == data[SUPER_OFFSET..SUPER_OFFSET + 4];
      var u := Unpack(at, SUPER_SHAPE).value;
      assert u.value == FromLE(at[..4]);
      ElevenFields(u);
    }
  }

  lemma ElevenFields(u: Fields)
    requires SameShape(SUPER_SHAPE, u)
    ensures u.Field? && u.rest.Field? && u.rest.rest.Field? && u.rest.rest.rest.Field? && u.rest.rest.rest.rest.Field?
    ensures var v := u.rest.rest.rest.rest.rest;
      && v.Field? && v.rest.Field? && v.rest.rest.Field? && v.rest.rest.rest.Field? && v.rest.rest.rest.rest.Field?
      && v.rest.rest.rest.rest.rest.Field?
  {
    var g := SUPER_SHAPE;
    TwoFields(g, u);
    TwoFields(g.rest.rest, u.rest.rest);
    var h, v := g.rest.rest.rest.rest, u.rest.rest.rest.rest;
    TwoFields(h, v);
    TwoFields(h.rest.rest, v.rest.rest);
    TwoFields(h.rest.rest.rest.rest, v.rest.rest.rest.rest);
    TwoFields(h.rest.rest.rest.rest.rest.rest, v.rest.rest.rest.rest.rest.rest);
  }

  lemma TwoFields(f: Fields, g: Fields)
    requires SameShape(f, g) && f.Field? && f.rest.Field?
    ensures g.Field? && g.rest.Field? && SameShape(f.rest.rest, g.rest.rest)
  {
  }

  lemma SuperWidth()
    ensures Width(SUPER_SHAPE) == 128
  {
    SuperShape(Superblock(0, 0, 0, 0));
  }

  // ---------- compact inodes ----------

  function CompactBytes(ino: Inode): Bytes {
    Pack(CompactFields(2 * LayoutCode(ino.layout), ino))
  }

  /** What a compact inode can hold: narrower fields, and no time. */
  predicate CompactFits(ino: Inode) {
    && !ino.extended && ino.xattrCount < 0x1_0000 && ino.mode < 0x1_0000 && ino.nlink < 0x1_0000
    && ino.size < 0x1_0000_0000 && ino.info < 0x1_0000_0000 && ino.uid < 0x1_0000 && ino.gid < 0x1_0000
    && ino.mtime == 0
  }

  /** The fields have the widths of `g`, values that fit, and `w` bytes together. */
  predicate Shaped(f: Fields, g: Fields, w: nat) {
    SameShape(f, g) && Fits(f) && Width(f) == w
  }

  lemma ShapedStep(f: Fields, g: Fields, w: nat)
    requires f.Field? && g.Field? && f.width == g.width && f.value < Pow256(f.width) && Shaped(f.rest, g.rest, w)
    ensures Shaped(f, g, f.width + w)
  {
  }

  lemma CompactShape(fl: nat, ino: Inode)
    requires CompactFits(ino) && fl < 0x1_0000
    ensures SameShape(CompactFields(fl, ino), COMPACT_SHAPE) && Fits(CompactFields(fl, ino))
    ensures Width(CompactFields(fl, ino)) == 32
  {
    WidthBounds();
    var f, g := CompactFields(fl, ino), COMPACT_SHAPE;
    var f3, g3 := f.rest.rest.rest, g.rest.rest.rest;
    var f6, g6 := f3.rest.rest.rest, g3.rest.rest.rest;
    var f9, g9 := f6.rest.rest.rest, g6.rest.rest.rest;
    CompactEnd(f9, g9, ino);
    assert Shaped(f, g, 32) by {
      hide Shaped, Pow256;
      ShapedStep(f6.rest.rest, g6.rest.rest, 6);
      ShapedStep(f6.rest, g6.rest, 8);
      ShapedStep(f6, g6, 12);
      ShapedStep(f3.rest.rest, g3.rest.rest, 16);
      ShapedStep(f3.rest, g3.rest, 20);
      ShapedStep(f3, g3, 24);
      ShapedStep(f.rest.rest, g.rest.rest, 26);
      ShapedStep(f.rest, g.rest, 28);
      ShapedStep(f, g, 30);
    }
  }

  lemma CompactEnd(f: Fields, g: Fields, ino: Inode)
    requires f == Field(2, ino.gid, Field(4, 0, End)) && g == Field(2, 0, Field(4, 0, End)) && ino.gid < 0x1_0000
    ensures Shaped(f, g, 6)
  {
    WidthBounds();
    assert Shaped(End, End, 0);
    ShapedStep(f.rest, g.rest, 0);
    ShapedStep(f, g, 4);
  }

  lemma CompactFirst(fl: nat, ino: Inode, rest: Bytes)
    requires fl < 0x1_0000
    ensures var data := Pack(CompactFields(fl, ino)) + rest; |data| >= 2 && FromLE(data[..2]) == fl
  {
    hide Pow256, FromLE, ToLE;
    var f := CompactFields(fl, ino);
    var data := Pack(f) + rest;
    WidthBounds();
    LERoundTrip(fl, 2);
    assert Pack(f) == ToLE(fl, 2) + Pack(f.rest);
    assert data[..2] == ToLE(fl, 2);
  }

  /** A compact inode parsed from its 32 bytes, whatever follows them. */
  lemma CompactRoundTrip(id: nat, ino: Inode, rest: Bytes)
    requires CompactFits(ino)
    ensures |CompactBytes(ino)| == 32 && ParseInode(id, CompactBytes(ino) + rest) == Ok(ino.(diskId := id))
  {
    hide FromLE, Pack, Unpack, Fits, SameShape, COMPACT_SHAPE, EXTENDED_SHAPE;
    var fl := 2 * LayoutCode(ino.layout);
    CompactShape(fl, ino);
    PackRoundTrip(CompactFields(fl, ino), COMPACT_SHAPE, rest);
    CompactFirst(fl, ino, rest);
  }

  // ---------- a record and its data, laid out by anyone ----------

  /** An inode of either form. */
  predicate AnyFits(ino: Inode) {
    if ino.extended then InodeFits(ino) else CompactFits(ino)
  }

  function AnyBytes(ino: Inode): Bytes {
    if ino.extended then InodeBytes(ino) else CompactBytes(ino)
  }

  /** The inode, its attributes and its tail stand one after the other where the disk id says. */
  predicate RecordHeld(img: Bytes, sb: Superblock, ino: Inode, attrs: Bytes, tail: Bytes) {
    && AnyFits(ino) && |attrs| == XattrLen(ino.xattrCount)
    && Has(img, RawInodeOffset(sb, ino.diskId), AnyBytes(ino) + attrs + tail)
  }

  lemma AnyRoundTrip(ino: Inode, rest: Bytes)
    requires AnyFits(ino)
    ensures |AnyBytes(ino)| == InodeSize(ino) && ParseInode(ino.diskId, AnyBytes(ino) + rest) == Ok(ino)
  {
    hide ParseInode, InodeBytes, CompactBytes;
    if ino.extended {
      InodeRoundTrip(ino.diskId, ino, rest);
      ExtendedWidth(ino);
    } else {
      CompactRoundTrip(ino.diskId, ino, rest);
    }
  }

  lemma ExtendedWidth(ino: Inode)
    ensures |InodeBytes(ino)| == 64
  {
    var f := ExtendedFields(1 + 2 * LayoutCode(ino.layout), ino);
    var g := f.rest.rest.rest.rest.rest.rest;
    assert Width(g.rest.rest.rest.rest.rest) == 20;
    assert Width(g.rest.rest.rest) == 32;
    assert Width(g.rest) == 40;
    assert Width(f.rest.rest.rest.rest.rest) == 48;
    assert Width(f.rest.rest.rest) == 58;
    assert Width(f.rest) == 62;
  }

  /** A record of either form is found through its id, with its tail at `inode_end`. */
  lemma HeldIsRead(img: Bytes, sb: Superblock, ino: Inode, attrs: Bytes, tail: Bytes)
    requires RecordHeld(img, sb, ino, attrs, tail)
    ensures GetInode(img, sb, ino.diskId) == Ok(ino) && Has(img, InodeEnd(sb, ino), tail)
  {
    hide ParseInode, AnyBytes, AnyFits, RawInodeOffset;
    var off, head := RawInodeOffset(sb, ino.diskId), AnyBytes(ino);
    HasSlice(img, off, head + attrs + tail);
    assert img[off..] == head + (attrs + tail + img[off + |head + attrs + tail|..]);
    AnyRoundTrip(ino, attrs + tail + img[off + |head + attrs + tail|..]);
    assert head + attrs + tail == (head + attrs) + tail + [];
    HasPart(img, off, head + attrs, tail, []);
  }

  /** The data of an inode: whole blocks where `info` says, and inline what is left, or all in blocks. */
  predicate DataHeld(img: Bytes, sb: Superblock, ino: Inode, block: Bytes, tail: Bytes) {
    && ino.size == |block| + |tail|
    && match ino.layout
       case FlatInline =>
         && |block| == BlockTailLen(BlockSize(sb), ino.size).0
         && (if ino.info == NULL_ADDR then block == [] else Has(img, BlockOffset(sb, ino.info), block))
       case FlatPlain => tail == [] && (block != [] ==> Has(img, BlockOffset(sb, ino.info), block))
       case _ => false
  }

  /** `get_data` gives back both parts, for any block size and either form of inode. */
  lemma DataIsRead(img: Bytes, sb: Superblock, ino: Inode, attrs: Bytes, block: Bytes, tail: Bytes)
    requires RecordHeld(img, sb, ino, attrs, tail) && DataHeld(img, sb, ino, block, tail)
    ensures GetData(img, sb, ino) == Ok((block, tail))
  {
    hide RecordHeld, BlockOffset, InodeEnd, Pow2;
    HeldIsRead(img, sb, ino, attrs, tail);
    if ino.layout.FlatInline? {
      assert |tail| == BlockTailLen(BlockSize(sb), ino.size).1;
    }
  }

  /** Whatever is read for an inode is the whole of its data: as many bytes as its size, where it says they are. */
  lemma DataComplete(img: Bytes, sb: Superblock, ino: Inode)
    requires GetData(img, sb, ino).Ok?
    ensures var (block, tail) := GetData(img, sb, ino).value;
      && |block| + |tail| == ino.size
      && (block != [] ==> Has(img, BlockOffset(sb, ino.info), block))
      && (tail != [] ==> ino.layout.FlatInline? && |tail| < BlockSize(sb) && Has(img, InodeEnd(sb, ino), tail))
  {
    hide BlockOffset, InodeEnd, Pow2;
  }

  // ---------- directories ----------

  /** The inode for an entry that was found. */
  function Target(img: Bytes, sb: Superblock, item: Option<DirentItem>): Result<Option<Inode>, ReadError> {
    match item
    case None => Ok(None)
    case Some(i) =>
      match GetInode(img, sb, i.diskId)
      case Err(e) => Err(e)
      case Ok(ino) => Ok(Some(ino))
  }

  /** One component of a lookup in a directory that anyone laid out, inline or not. */
  lemma StepInDirectory(img: Bytes, sb: Superblock, ino: Inode, attrs: Bytes, block: Bytes, tail: Bytes,
                        groups: seq<seq<DirentItem>>, name: Bytes)
    requires RecordHeld(img, sb, ino, attrs, tail) && DataHeld(img, sb, ino, block, tail)
    requires FileTypeOf(ino) == Directory && BlockSize(sb) == BLOCK
    requires groups != [] && GroupsOk(groups) && block + tail == Flat(groups)
    ensures Step(img, sb, ino, name) == Target(img, sb, FirstNamed(Concat(groups), name))
  {
    hide RecordHeld, GetData, GetInode, ReadAll, FindEntry, Flat, Pow2, FileTypeOf, FirstNamed, ReadDirent;
    DataIsRead(img, sb, ino, attrs, block, tail);
    CutAtBlock(img, sb, ino, block, tail);
    DirentRoundTrip(block, tail, groups);
    var c := Dirents(block, tail, BLOCK).value;
    FindInRead(c, name);
    LegalFound(groups, name);
  }

  lemma CutAtBlock(img: Bytes, sb: Superblock, ino: Inode, block: Bytes, tail: Bytes)
    requires DataHeld(img, sb, ino, block, tail) && BlockSize(sb) == BLOCK
    ensures tail == [] || |block| % BLOCK == 0
  {
    if ino.layout.FlatInline? {
      assert |block| == ino.size / BLOCK * BLOCK;
    }
  }

  lemma {:induction false} LegalFound(groups: seq<seq<DirentItem>>, name: Bytes)
    requires GroupsOk(groups)
    ensures FirstNamed(Concat(groups), name).Some? ==> FirstNamed(Concat(groups), name).value.diskId < 0x1_0000_0000
    decreases |groups|
  {
    if groups != [] {
      LegalFound(groups[1..], name);
      assert GroupOk(groups[0]);
      FoundInEither(groups[0], Concat(groups[1..]), name);
    }
  }

  lemma {:induction false} FoundInEither(items: seq<DirentItem>, more: seq<DirentItem>, name: Bytes)
    requires LegalItems(items)
    ensures var r := FirstNamed(items + more, name); r == FirstNamed(more, name) || (r.Some? && LegalItem(r.value))
  {
    if items == [] {
      assert items + more == more;
    } else {
      assert (items + more)[1..] == items[1..] + more && LegalItem(items[0]);
      FoundInEither(items[1..], more, name);
    }
  }
}
