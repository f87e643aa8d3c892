/**
 The byte offsets of the EROFS on-disk format as the builder writes them (peerofs/src/disk.rs): superblock,
 extended and compact inodes, and dirents, every field little-endian.
 */
module ErofsFormat {
  import opened Bytes
  import opened ErofsDisk
  import opened ErofsDirents
  import opened ErofsStages
  import opened ErofsXattr
  import opened ErofsForeign

  /** The bytes hold the value at the offset, in so many bytes. */
  predicate FieldIs(bs: Bytes, off: nat, value: nat, width: nat) {
    off + width <= |bs| && bs[off..off + width] == ToLE(value, width)
  }

  lemma PackAt(bs: Bytes, off: nat, f: Fields)
    requires f.Field? && off <= |bs| && bs[off..] == Pack(f)
    ensures FieldIs(bs, off, f.value, f.width)
    ensures off + f.width <= |bs| && bs[off + f.width..] == Pack(f.rest)
  {
    hide ToLE;
    assert bs[off..off + f.width] == bs[off..][..f.width];
    assert bs[off + f.width..] == bs[off..][f.width..];
  }

  /** The superblock: magic, block size, root, inode count and meta block at their offsets. */
  lemma SuperLayout(sb: Superblock)
    ensures var bs := SuperBytes(sb);
      && |bs| == 128 && FieldIs(bs, 0, 0xe0f5_e1e2, 4) && FieldIs(bs, 12, sb.blkszbits, 1)
      && FieldIs(bs, 14, sb.rootDiskId, 2) && FieldIs(bs, 16, sb.inos, 8) && FieldIs(bs, 40, sb.metaBlkaddr, 4)
  {
    hide Pack, FieldIs;
    var bs, f := SuperBytes(sb), SuperFields(SUPER_MAGIC, sb);
    var f6 := f.rest.rest.rest.rest.rest.rest;
    assert bs[0..] == bs;
    PackAt(bs, 0, f);
    PackAt(bs, 4, f.rest);
    PackAt(bs, 8, f.rest.rest);
    PackAt(bs, 12, f.rest.rest.rest);
    PackAt(bs, 13, f.rest.rest.rest.rest);
    PackAt(bs, 14, f.rest.rest.rest.rest.rest);
    PackAt(bs, 16, f6);
    PackAt(bs, 24, f6.rest);
    PackAt(bs, 32, f6.rest.rest);
    PackAt(bs, 36, f6.rest.rest.rest);
    PackAt(bs, 40, f6.rest.rest.rest.rest);
    PackAt(bs, 44, f6.rest.rest.rest.rest.rest);
    PackAt(bs, 48, f6.rest.rest.rest.rest.rest.rest);
    NothingMore(bs, 128);
  }

  lemma NothingMore(bs: Bytes, off: nat)
    requires off <= |bs| && bs[off..] == Pack(End)
    ensures |bs| == off
  {
  }

  /** An extended inode. */
  lemma ExtendedLayout(ino: Inode)
    ensures var bs := InodeBytes(ino);
      && |bs| == 64 && FieldIs(bs, 0, 1 + 2 * LayoutCode(ino.layout), 2) && FieldIs(bs, 2, ino.xattrCount, 2)
      && FieldIs(bs, 4, ino.mode, 2) && FieldIs(bs, 8, ino.size, 8) && FieldIs(bs, 16, ino.info, 4)
      && FieldIs(bs, 24, ino.uid, 4) && FieldIs(bs, 28, ino.gid, 4) && FieldIs(bs, 32, ino.mtime, 8)
      && FieldIs(bs, 44, ino.nlink, 4)
  {
    hide Pack, FieldIs;
    var bs, f := InodeBytes(ino), ExtendedFields(1 + 2 * LayoutCode(ino.layout), ino);
    var f6 := f.rest.rest.rest.rest.rest.rest;
    assert bs[0..] == bs;
    PackAt(bs, 0, f);
    PackAt(bs, 2, f.rest);
    PackAt(bs, 4, f.rest.rest);
    PackAt(bs, 6, f.rest.rest.rest);
    PackAt(bs, 8, f.rest.rest.rest.rest);
    PackAt(bs, 16, f.rest.rest.rest.rest.rest);
    PackAt(bs, 20, f6);
    PackAt(bs, 24, f6.rest);
    PackAt(bs, 28, f6.rest.rest);
    PackAt(bs, 32, f6.rest.rest.rest);
    PackAt(bs, 40, f6.rest.rest.rest.rest);
    PackAt(bs, 44, f6.rest.rest.rest.rest.rest);
    PackAt(bs, 48, f6.rest.rest.rest.rest.rest.rest);
    NothingMore(bs, 64);
  }

  /** A compact inode. */
  lemma CompactLayout(ino: Inode)
    ensures var bs := CompactBytes(ino);
      && |bs| == 32 && FieldIs(bs, 0, 2 * LayoutCode(ino.layout), 2) && FieldIs(bs, 2, ino.xattrCount, 2)
      && FieldIs(bs, 4, ino.mode, 2) && FieldIs(bs, 6, ino.nlink, 2) && FieldIs(bs, 8, ino.size, 4)
      && FieldIs(bs, 16, ino.info, 4) && FieldIs(bs, 24, ino.uid, 2) && FieldIs(bs, 26, ino.gid, 2)
  {
    hide Pack, FieldIs;
    var bs, f := CompactBytes(ino), CompactFields(2 * LayoutCode(ino.layout), ino);
    var f6 := f.rest.rest.rest.rest.rest.rest;
    assert bs[0..] == bs;
    PackAt(bs, 0, f);
    PackAt(bs, 2, f.rest);
    PackAt(bs, 4, f.rest.rest);
    PackAt(bs, 6, f.rest.rest.rest);
    PackAt(bs, 8, f.rest.rest.rest.rest);
    PackAt(bs, 12, f.rest.rest.rest.rest.rest);
    PackAt(bs, 16, f6);
    PackAt(bs, 20, f6.rest);
    PackAt(bs, 24, f6.rest.rest);
    PackAt(bs, 26, f6.rest.rest.rest);
    PackAt(bs, 28, f6.rest.rest.rest.rest);
    NothingMore(bs, 32);
  }

  /** A dirent: inode number, where its name starts, and the type. */
  lemma DirentLayout(item: DirentItem, nameOffset: nat)
    ensures var bs := Header(item, nameOffset);
      && |bs| == 12 && FieldIs(bs, 0, item.diskId, 8) && FieldIs(bs, 8, nameOffset, 2)
      && FieldIs(bs, 10, item.fileType, 1)
  {
    hide Pack, FieldIs;
    var bs, f := Header(item, nameOffset), DirentFields(RawDirent(item.diskId, nameOffset, item.fileType));
    assert bs[0..] == bs;
    PackAt(bs, 0, f);
    PackAt(bs, 8, f.rest);
    PackAt(bs, 10, f.rest.rest);
    PackAt(bs, 11, f.rest.rest.rest);
    NothingMore(bs, 12);
  }

  /** The text as bytes, for characters below 128. */
  function Ascii(s: string): Bytes {
    seq(|s|, i requires 0 <= i < |s| => (s[i] as int % 128) as byte)
  }

  /** The table of attribute prefixes, in the order of their ids. */
  lemma PrefixTable()
    ensures PREFIXES == [Ascii("user."), Ascii("system.posix_acl_access"), Ascii("system.posix_acl_default"),
                         Ascii("trusted"), [], Ascii("security.")]
  {
    hide Ascii;
    ShortPrefixes();
    AclAccess();
    AclDefault();
  }

  lemma ShortPrefixes()
    ensures USER == Ascii("user.") && TRUSTED == Ascii("trusted") && SECURITY == Ascii("security.")
  {
  }

  lemma AclAccess()
    ensures ACL_ACCESS == Ascii("system.posix_acl_access")
  {
  }

  lemma AclDefault()
    ensures ACL_DEFAULT == Ascii("system.posix_acl_default")
  {
  }
}
