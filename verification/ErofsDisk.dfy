/**
 The EROFS reader (peerofs/src/disk.rs): superblock, inodes, file data,
 directory entries and path lookup, all found from byte offsets.
 */
module ErofsDisk {
  import opened Bytes

  const SUPER_OFFSET: nat := 1024
  const SUPER_MAGIC: nat := 0xe0f5_e1e2
  const INODE_ALIGNMENT: nat := 32
  const NULL_ADDR: nat := 0xffff_ffff
  const DIRENT_SIZE: nat := 12
  const XATTR_HEADER_SIZE: nat := 12
  const XATTR_ENTRY_SIZE: nat := 4

  datatype ReadError =
    | BadMagic | BadConversion | Oob | NotDir | DirentBadSize | BadFileType
    | InodeTooBig | BlockLenShouldBeZero | LayoutNotHandled | InvalidXattrPrefix
    | XattrPrefixTableNotHandled

  // ---------- superblock ----------

  datatype Superblock = Superblock(blkszbits: nat, rootDiskId: nat, inos: nat, metaBlkaddr: nat)

  /** The fields the builder sets; the last 80 bytes are unused here. */
  function SuperFields(magic: nat, sb: Superblock): Fields {
    Field(4, magic, Field(4, 0, Field(4, 0, Field(1, sb.blkszbits, Field(1, 0, Field(2, sb.rootDiskId,
    Field(8, sb.inos, Field(8, 0, Field(4, 0, Field(4, 0, Field(4, sb.metaBlkaddr, Field(4, 0,
    Field(80, 0, End)))))))))))))
  }

  const SUPER_SHAPE: Fields := SuperFields(0, Superblock(0, 0, 0, 0))

  function SuperBytes(sb: Superblock): Bytes {
    Pack(SuperFields(SUPER_MAGIC, sb))
  }

  function Pow2(n: nat): (r: nat)
    ensures r >= 1
  {
    if n == 0 then 1 else 2 * Pow2(n - 1)
  }

  /** `Erofs::new` */
  function OpenImage(data: Bytes): Result<Superblock, ReadError> {
    if |data| < SUPER_OFFSET then Err(Oob) else
    match Unpack(data[SUPER_OFFSET..], SUPER_SHAPE)
    case Some(Field(_, magic, Field(_, _, Field(_, _, Field(_, bits, Field(_, _, Field(_, root,
              Field(_, inos, Field(_, _, Field(_, _, Field(_, _, Field(_, meta, _)))))))))))) =>
      if magic != SUPER_MAGIC then Err(BadMagic) else Ok(Superblock(bits, root, inos, meta))
    case _ => Err(BadConversion)
  }

  function BlockSize(sb: Superblock): (r: nat)
    ensures r >= 1
  {
    Pow2(sb.blkszbits)
  }

  function BlockOffset(sb: Superblock, block: nat): nat {
    block * BlockSize(sb)
  }

  // ---------- inodes ----------

  datatype Layout = FlatPlain | CompressedFull | FlatInline | CompressedCompact | ChunkBased

  datatype FileType = RegularFile | Directory | Symlink | OtherType

  datatype Inode = Inode(
    diskId: nat, extended: bool, layout: Layout, xattrCount: nat, mode: nat, size: nat,
    info: nat, uid: nat, gid: nat, mtime: nat, nlink: nat)

  function LayoutCode(l: Layout): nat {
    match l
    case FlatPlain => 0
    case CompressedFull => 1
    case FlatInline => 2
    case CompressedCompact => 3
    case ChunkBased => 4
  }

  function LayoutFromCode(x: nat): Option<Layout> {
    if x == 0 then Some(FlatPlain)
    else if x == 1 then Some(CompressedFull)
    else if x == 2 then Some(FlatInline)
    else if x == 3 then Some(CompressedCompact)
    else if x == 4 then Some(ChunkBased)
    else None
  }

  /** The type nibble of `st_mode`. */
  function FileTypeOf(ino: Inode): FileType {
    var t := ino.mode / 4096 % 16;
    if t == 8 then RegularFile else if t == 4 then Directory else if t == 10 then Symlink else OtherType
  }

  function ExtendedFields(formatLayout: nat, ino: Inode): Fields {
    Field(2, formatLayout, Field(2, ino.xattrCount, Field(2, ino.mode, Field(2, 0, Field(8, ino.size,
    Field(4, ino.info, Field(4, 0, Field(4, ino.uid, Field(4, ino.gid, Field(8, ino.mtime, Field(4, 0,
    Field(4, ino.nlink, Field(16, 0, End)))))))))))))
  }

  function CompactFields(formatLayout: nat, ino: Inode): Fields {
    Field(2, formatLayout, Field(2, ino.xattrCount, Field(2, ino.mode, Field(2, ino.nlink, Field(4, ino.size,
    Field(4, 0, Field(4, ino.info, Field(4, 0, Field(2, ino.uid, Field(2, ino.gid, Field(4, 0, End)))))))))))
  }

  const BLANK_INODE: Inode := Inode(0, true, FlatPlain, 0, 0, 0, 0, 0, 0, 0, 0)
  const EXTENDED_SHAPE: Fields := ExtendedFields(0, BLANK_INODE)
  const COMPACT_SHAPE: Fields := CompactFields(0, BLANK_INODE)

  /** `InodeExtended::as_bytes` */
  function InodeBytes(ino: Inode): Bytes {
    Pack(ExtendedFields(1 + 2 * LayoutCode(ino.layout), ino))
  }

  /** `Inode::new` */
  function ParseInode(diskId: nat, data: Bytes): Result<Inode, ReadError> {
    if |data| < 2 then Err(BadConversion) else
    var formatLayout := FromLE(data[..2]);
    match LayoutFromCode(formatLayout / 2 % 8)
    case None => Err(BadConversion)
    case Some(layout) =>
      if formatLayout % 2 == 1 then
        match Unpack(data, EXTENDED_SHAPE)
        case Some(Field(_, _, Field(_, xattrs, Field(_, mode, Field(_, _, Field(_, size, Field(_, info,
                  Field(_, _, Field(_, uid, Field(_, gid, Field(_, mtime, Field(_, _, Field(_, nlink, _))))))))))))) =>
          Ok(Inode(diskId, true, layout, xattrs, mode, size, info, uid, gid, mtime, nlink))
        case _ => Err(BadConversion)
      else
        match Unpack(data, COMPACT_SHAPE)
        case Some(Field(_, _, Field(_, xattrs, Field(_, mode, Field(_, nlink, Field(_, size, Field(_, _,
                  Field(_, info, Field(_, _, Field(_, uid, Field(_, gid, _))))))))))) =>
          Ok(Inode(diskId, false, layout, xattrs, mode, size, info, uid, gid, 0, nlink))
        case _ => Err(BadConversion)
  }

  function RawInodeOffset(sb: Superblock, diskId: nat): nat {
    BlockOffset(sb, sb.metaBlkaddr) + 32 * diskId
  }

  function GetInode(data: Bytes, sb: Superblock, diskId: nat): Result<Inode, ReadError> {
    var off := RawInodeOffset(sb, diskId);
    if off > |data| then Err(Oob) else ParseInode(diskId, data[off..])
  }

  function XattrLen(count: nat): nat {
    if count == 0 then 0 else XATTR_HEADER_SIZE + (count - 1) * XATTR_ENTRY_SIZE
  }

  function InodeSize(ino: Inode): nat {
    if ino.extended then 64 else 32
  }

  function InodeEnd(sb: Superblock, ino: Inode): nat {
    RawInodeOffset(sb, ino.diskId) + InodeSize(ino) + XattrLen(ino.xattrCount)
  }

  /** `compute_block_tail_len`: whole blocks, and the rest. */
  function BlockTailLen(blockSize: nat, size: nat): (r: (nat, nat))
    requires blockSize >= 1
    ensures r.0 + r.1 == size && r.1 == size % blockSize
  {
    var blockLen := size / blockSize * blockSize;
    (blockLen, size - blockLen)
  }

  /** The block part and the tail part of an inode's data. */
  function GetData(data: Bytes, sb: Superblock, ino: Inode): Result<(Bytes, Bytes), ReadError> {
    match ino.layout
    case FlatInline =>
      var (blockLen, tailLen) := BlockTailLen(BlockSize(sb), ino.size);
      var tailBegin := InodeEnd(sb, ino);
      if tailBegin + tailLen > |data| then Err(Oob)
      else
        var tail := data[tailBegin..tailBegin + tailLen];
        if ino.info == NULL_ADDR then
          if blockLen != 0 then Err(BlockLenShouldBeZero) else Ok(([], tail))
        else
          var begin := BlockOffset(sb, ino.info);
          if begin + blockLen > |data| then Err(Oob)
          else Ok((data[begin..begin + blockLen], tail))
    case FlatPlain =>
      if ino.size == 0 then Ok(([], []))
      else
        var begin := BlockOffset(sb, ino.info);
        if begin + ino.size > |data| then Err(Oob)
        else Ok((data[begin..begin + ino.size], []))
    case _ => Err(LayoutNotHandled)
  }

  // ---------- directory entries ----------

  datatype DirentItem = DirentItem(diskId: nat, fileType: nat, name: Bytes)

  datatype RawDirent = RawDirent(diskId: nat, nameOffset: nat, fileType: nat)

  function DirentFields(d: RawDirent): Fields {
    Field(8, d.diskId, Field(2, d.nameOffset, Field(1, d.fileType, Field(1, 0, End))))
  }

  const DIRENT_SHAPE: Fields := DirentFields(RawDirent(0, 0, 0))

  function ReadDirent(data: Bytes): Option<RawDirent> {
    match Unpack(data, DIRENT_SHAPE)
    case Some(Field(_, diskId, Field(_, nameOffset, Field(_, fileType, _)))) =>
      Some(RawDirent(diskId, nameOffset, fileType))
    case _ => None
  }

  /** The state of `DirentsIterator`. */
  datatype Cursor = Cursor(data: Bytes, remaining: Option<Bytes>, i: nat, count: nat, blockSize: nat) {
    function Left(): nat {
      |data| + (if remaining.Some? then |remaining.value| else 0)
    }

    /** `DirentsIterator::get` */
    function Get(k: nat): Result<RawDirent, ReadError> {
      if k * DIRENT_SIZE > |data| then Err(Oob) else
      match ReadDirent(data[k * DIRENT_SIZE..])
      case None => Err(BadConversion)
      case Some(d) => Ok(d)
    }

    /** `self.data` after an exhausted block part has been replaced by the tail. */
    function Refill(): (c: Cursor)
      ensures c.Left() == Left()
    {
      if data == [] && remaining.Some? then this.(data := remaining.value, remaining := None) else this
    }

    /** `DirentsIterator::reset_count` */
    function ResetCount(): (r: Result<Cursor, ReadError>)
      ensures r.Ok? ==> r.value.Left() == Left() && r.value.i <= r.value.count
    {
      var c := Refill();
      if c.data == [] then Ok(c.(i := 0, count := 0)) else
      match ReadDirent(c.data)
      case None => Err(BadConversion)
      case Some(d) =>
        if d.nameOffset % DIRENT_SIZE != 0 then Err(DirentBadSize)
        else Ok(c.(i := 0, count := d.nameOffset / DIRENT_SIZE))
    }

    /** `next_impl`: the item and the iterator after it. */
    function Next(): (r: Result<(DirentItem, Cursor), ReadError>)
      requires i < count && blockSize >= 1
      ensures r.Ok? ==>
        var c := r.value.1;
        && c.blockSize == blockSize && c.i <= c.count
        && (c.Left() < Left() || (c.Left() == Left() && c.count - c.i < count - i))
    {
      match Get(i)
      case Err(e) => Err(e)
      case Ok(d) =>
        if d.fileType > 7 then Err(BadFileType)
        else if i + 1 < count then
          match Get(i + 1)
          case Err(e) => Err(e)
          case Ok(next) =>
            match Slice(data, d.nameOffset, next.nameOffset)
            case None => Err(Oob)
            case Some(name) => Ok((DirentItem(d.diskId, d.fileType, name), this.(i := i + 1)))
        else
          var end := if |data| < blockSize then |data| else blockSize;
          match Slice(data, d.nameOffset, end)
          case None => Err(Oob)
          case Some(name) =>
            match this.(data := data[end..]).ResetCount()
            case Err(e) => Err(e)
            case Ok(c) => Ok((DirentItem(d.diskId, d.fileType, UpToNul(name)), c))
    }
  }

  /** The bytes before the first zero byte. */
  function UpToNul(s: Bytes): (r: Bytes)
    ensures r <= s && 0 !in r
    ensures |r| < |s| ==> s[|r|] == 0
  {
    if s == [] || s[0] == 0 then [] else [s[0]] + UpToNul(s[1..])
  }

  /** `DirentsIterator::new` */
  function Dirents(block: Bytes, tail: Bytes, blockSize: nat): Result<Cursor, ReadError> {
    Cursor(block, Some(tail), 0, 0, blockSize).ResetCount()
  }

  /** The first entry with this name, as the inner loop of `lookup` finds it. */
  function FindEntry(c: Cursor, name: Bytes): Result<Option<DirentItem>, ReadError>
    requires c.i <= c.count && c.blockSize >= 1
    decreases c.Left(), c.count - c.i
  {
    if c.i == c.count then Ok(None) else
    match c.Next()
    case Err(e) => Err(e)
    case Ok((item, c')) => if item.name == name then Ok(Some(item)) else FindEntry(c', name)
  }

  /** One step of `lookup`: the inode a name leads to from a directory inode. */
  function Step(data: Bytes, sb: Superblock, cur: Inode, name: Bytes): Result<Option<Inode>, ReadError> {
    if FileTypeOf(cur) != Directory then Err(NotDir) else
    match GetData(data, sb, cur)
    case Err(e) => Err(e)
    case Ok((block, tail)) =>
      match Dirents(block, tail, BlockSize(sb))
      case Err(e) => Err(e)
      case Ok(c) =>
        match FindEntry(c, name)
        case Err(e) => Err(e)
        case Ok(None) => Ok(None)
        case Ok(Some(item)) =>
          if item.diskId >= 0x1_0000_0000 then Err(InodeTooBig) else
          match GetInode(data, sb, item.diskId)
          case Err(e) => Err(e)
          case Ok(ino) => Ok(Some(ino))
  }

  function LookupFrom(data: Bytes, sb: Superblock, cur: Inode, names: seq<Bytes>): Result<Option<Inode>, ReadError>
    decreases |names|
  {
    if names == [] then Ok(Some(cur)) else
    match Step(data, sb, cur, names[0])
    case Err(e) => Err(e)
    case Ok(None) => Ok(None)
    case Ok(Some(next)) => LookupFrom(data, sb, next, names[1..])
  }

  /** `Erofs::new` followed by `lookup`. */
  function Lookup(data: Bytes, names: seq<Bytes>): (r: Result<Option<Inode>, ReadError>)
    ensures r.Ok? ==> OpenImage(data).Ok?
  {
    match OpenImage(data)
    case Err(e) => Err(e)
    case Ok(sb) =>
      match GetInode(data, sb, sb.rootDiskId)
      case Err(e) => Err(e)
      case Ok(root) => LookupFrom(data, sb, root, names)
  }

  /** The bytes at a path: `lookup`, then both parts of `get_data`. */
  function ReadPath(data: Bytes, names: seq<Bytes>): Result<Option<Bytes>, ReadError> {
    match Lookup(data, names)
    case Err(e) => Err(e)
    case Ok(None) => Ok(None)
    case Ok(Some(ino)) =>
      match GetData(data, OpenImage(data).value, ino)
      case Err(e) => Err(e)
      case Ok((block, tail)) => Ok(Some(block + tail))
  }
}
