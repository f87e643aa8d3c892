/**
 The EROFS builder (peerofs/src/build.rs): adding files while streaming their blocks,
 then the four walks that reserve dirent blocks, write directory inodes, write the other
 inodes and fill in the dirents.
 */
module ErofsBuild {
  import opened Bytes
  import opened Paths
  import opened ErofsDisk
  import opened ErofsDirents
  import opened ErofsTree
  import opened ErofsXattr
  import opened ErofsPacking
  import opened ErofsImage
  import opened ErofsStages
  import opened ErofsWalks
  import opened ErofsAddresses
  import opened ErofsLimits
  import opened ErofsReadBack
  import opened ErofsFiles
  import opened ErofsInserts
  import opened ErofsLinks
  import opened ErofsAttributes
  import opened ErofsListing

  const BLOCK_SIZE_BITS: nat := 12

  class Builder {
    var image: Bytes
    var pos: nat
    var root: Dir
    var curDataBlock: nat
    var metaBlock: Option<nat>
    var inodeAddr: nat
    var nInodes: nat
    var parents: seq<nat>
    var links: seq<HardLink>
    const incrementUidGid: Option<u32>
    const maxFileSize: u64
    // the bytes given for each file and symlink of the tree
    ghost var given: FileMap
    // every inode record written so far
    ghost var extents: seq<Extent>

    // ---------- the writer ----------

    method WriteAll(bs: Bytes)
      modifies this`image, this`pos
      ensures pos == old(pos) + |bs|
      ensures bs != [] ==> Has(image, old(pos), bs) && |image| >= pos
      ensures bs == [] ==> image == old(image)
      ensures Kept(old(image), image, old(pos), pos)
    {
      image := WriteAt(image, pos, bs);
      pos := pos + |bs|;
    }

    /** A write that continues bytes already written from `start` on. */
    method Extend(bs: Bytes, ghost start: nat, ghost sofar: Bytes)
      modifies this`image, this`pos
      ensures pos == old(pos) + |bs| && Kept(old(image), image, old(pos), pos)
      ensures old(pos) == start + |sofar| && old(Has(image, start, sofar)) ==>
        pos == start + |sofar + bs| && Has(image, start, sofar + bs)
    {
      WriteAll(bs);
      if bs == [] {
        assert sofar + bs == sofar;
      } else if old(pos) == start + |sofar| && old(Has(image, start, sofar)) {
        KeptHas(old(image), image, old(pos), pos, start, sofar);
        HasJoin(image, start, sofar, bs);
      }
    }

    method ZeroFill(written: nat, alignment: nat) returns (n: nat)
      requires alignment >= 1
      modifies this`image, this`pos
      ensures n == PadLen(written, alignment) && pos == old(pos) + n
      ensures n > 0 ==> Has(image, old(pos), Zeros(n)) && |image| >= pos
      ensures n == 0 ==> image == old(image)
      ensures Kept(old(image), image, old(pos), pos)
    {
      var rem := written % alignment;
      n := 0;
      if rem != 0 {
        n := alignment - rem;
        var k := 0;
        while k < n
          invariant 0 <= k <= n && pos == old(pos) + k
          invariant k > 0 ==> Has(image, old(pos), Zeros(k)) && |image| >= pos
          invariant k == 0 ==> image == old(image)
          invariant Kept(old(image), image, old(pos), pos)
        {
          ghost var before := image;
          WriteAll([0]);
          if k > 0 {
            KeptHas(before, image, pos - 1, pos, old(pos), Zeros(k));
            HasJoin(image, old(pos), Zeros(k), [0]);
          }
          assert Zeros(k) + [0] == Zeros(k + 1);
          k := k + 1;
        }
      }
    }

    // ---------- inodes ----------

    /** The writer stands at `inodeAddr`, aligned, after a stream of proper records. */
    ghost predicate Level()
      reads this`metaBlock, this`pos, this`inodeAddr, this`extents
    {
      metaBlock.Some? && pos == inodeAddr && StreamTo(extents, metaBlock.value, inodeAddr)
    }

    ghost predicate Synced()
      reads this`metaBlock, this`pos, this`inodeAddr, this`extents, this`nInodes
    {
      Level() && nInodes == |extents|
    }

    /** `write_inode`, the part that skips to the next block when the record would cross into it. */
    method SkipToBlock(total: nat)
      requires 64 <= total <= BLOCK
      modifies this`image, this`pos, this`inodeAddr
      ensures Kept(old(image), image, old(pos), pos) && old(pos) <= pos
      ensures inodeAddr == PlaceFor(old(inodeAddr), total)
      ensures old(pos) == old(inodeAddr) ==>
        if total == BLOCK && old(inodeAddr) % BLOCK == 0
        then pos == old(pos) && inodeAddr == pos + BLOCK
        else pos == inodeAddr && pos / BLOCK == (pos + total - 1) / BLOCK
      ensures old(inodeAddr) % INODE_ALIGNMENT == 0 ==> inodeAddr % INODE_ALIGNMENT == 0
    {
      var block1, block2 := inodeAddr / BLOCK, (inodeAddr + total) / BLOCK;
      if block1 != block2 {
        var _ := ZeroFill(inodeAddr, BLOCK);
        inodeAddr := block2 * BLOCK;
        BlockAligned(block2);
      }
    }

    /** The loop over the attributes. */
    method WriteEntries(xs: seq<Stored>, ghost start: nat, ghost sofar: Bytes)
      requires pos == start + |sofar| && Has(image, start, sofar)
      modifies this`image, this`pos
      ensures pos == start + |sofar + EntriesBytes(xs)| && Has(image, start, sofar + EntriesBytes(xs))
      ensures Kept(old(image), image, old(pos), pos)
    {
      hide Has, Kept, EntryBytes, EntriesBytes;
      var k := 0;
      NoEntries(xs, image, pos, sofar);
      while k < |xs|
        invariant 0 <= k <= |xs| && pos == start + |sofar + EntriesBytes(xs[..k])|
        invariant Has(image, start, sofar + EntriesBytes(xs[..k]))
        invariant Kept(old(image), image, old(pos), pos) && old(pos) <= pos
      {
        ghost var before, at := image, pos;
        Extend(EntryBytes(xs[k]), start, sofar + EntriesBytes(xs[..k]));
        KeptTransitive(old(image), before, image, old(pos), at, pos);
        NextEntry(xs, k, sofar);
        k := k + 1;
      }
      assert xs[..k] == xs;
    }

    /** The attribute area: header, entries, and the padding after the last one. */
    method WriteXattrs(xs: seq<Stored>, ghost start: nat, ghost sofar: Bytes)
      requires pos == start + |sofar| && Has(image, start, sofar)
      modifies this`image, this`pos
      ensures pos == start + |sofar + XattrBytes(xs)| && Has(image, start, sofar + XattrBytes(xs))
      ensures Kept(old(image), image, old(pos), pos)
    {
      if xs != [] {
        var head, pad := Zeros(XATTR_HEADER_SIZE), Zeros(PaddedLen(xs) - |EntriesBytes(xs)|);
        ghost var es := EntriesBytes(xs);
        Extend(head, start, sofar);
        WriteEntries(xs, start, sofar + head);
        Extend(pad, start, sofar + head + es);
        assert sofar + (head + (es + pad)) == sofar + head + es + pad;
      } else {
        assert sofar + XattrBytes(xs) == sofar;
      }
    }

    /** Inode, attributes and tail, one after the other. */
    method WriteRecord(ino: Inode, xs: seq<Stored>, tail: Option<Bytes>)
      modifies this`image, this`pos
      ensures pos == old(pos) + RecordLen(xs, tail) && Has(image, old(pos), Record(ino, xs, tail))
      ensures Kept(old(image), image, old(pos), pos)
    {
      var data := InodeBytes(Counted(ino, xs));
      InodeBytesLen(Counted(ino, xs));
      WriteAll(data);
      WriteXattrs(xs, old(pos), data);
      if tail.Some? {
        Extend(tail.value, old(pos), data + XattrBytes(xs));
      } else {
        assert data + XattrBytes(xs) + TailBytes(tail) == data + XattrBytes(xs);
      }
    }

    /** `addr_to_disk_id` */
    function DiskIdOf(addr: nat): (r: Result<nat, BuildError>)
      reads this`metaBlock
      requires metaBlock.Some?
      ensures r.Ok? ==> r.value < 0x1_0000_0000 && InodeAddr(metaBlock.value, r.value) == addr
    {
      var metaAddr := BLOCK * metaBlock.value;
      if addr < metaAddr then Err(AddrLessThanMetaBlock)
      else if (addr - metaAddr) % INODE_ALIGNMENT != 0 then Err(AddrNotAligned)
      else if (addr - metaAddr) / INODE_ALIGNMENT >= 0x1_0000_0000 then Err(DiskIdTooBig)
      else Ok((addr - metaAddr) / INODE_ALIGNMENT)
    }

    /** The record and its padding to the inode alignment. */
    method PutRecord(ino: Inode, xs: seq<Stored>, tail: Option<Bytes>, ghost rec: Bytes) returns (padding: nat)
      requires rec == Record(ino, xs, tail)
      modifies this`image, this`pos
      ensures padding == PadLen(|rec|, INODE_ALIGNMENT)
      ensures pos == old(pos) + |rec| + padding <= |image|
      ensures Has(image, old(pos), rec)
      ensures Kept(old(image), image, old(pos), pos)
    {
      WriteRecord(ino, xs, tail);
      ghost var mid, written := pos, image;
      padding := ZeroFill(RecordLen(xs, tail), INODE_ALIGNMENT);
      KeptTransitive(old(image), written, image, old(pos), mid, pos);
      KeptHas(written, image, mid, pos, old(pos), rec);
    }

    /** `write_inode` from the choice of the address on. */
    method PlaceRecord(ino: Inode, xs: seq<Stored>, tail: Option<Bytes>, total: nat, ghost rec: Bytes)
      returns (r: Result<nat, BuildError>)
      requires metaBlock.Some? && rec == Record(ino, xs, tail) && 64 <= total == |rec| <= BLOCK
      modifies this`image, this`pos, this`inodeAddr, this`extents
      ensures r.Ok? && old(Level()) ==>
        if NextAddr(old(inodeAddr), total).Some?
        then && Level() && NextAddr(old(inodeAddr), total) == Some(inodeAddr)
             && Appended(old(image), image, old(inodeAddr), inodeAddr, metaBlock.value, old(extents), extents,
                         r.value, rec)
             && InodeAddr(metaBlock.value, r.value) == PlaceFor(old(inodeAddr), total)
        else && inodeAddr == pos + BLOCK && Has(image, old(pos), rec)
             && InodeAddr(metaBlock.value, r.value) == old(pos) + BLOCK
      ensures old(Level()) ==> (r.Ok? <==> PlaceFor(old(inodeAddr), total) < BLOCK * metaBlock.value + ID_SPAN)
    {
      hide Has, Kept, Record, Stream;
      SkipToBlock(total);
      if old(Level()) { IdOfAddr(old(inodeAddr), inodeAddr, metaBlock.value, total); }
      var id :- DiskIdOf(inodeAddr);
      ghost var start, mid := pos, image;
      var padding := PutRecord(ino, xs, tail, rec);
      extents := extents + [Extent(inodeAddr, total)];
      inodeAddr := inodeAddr + total + padding;
      if old(Level()) && NextAddr(old(inodeAddr), total).Some? {
        AppendedBy(old(image), mid, image, old(inodeAddr), start, inodeAddr, metaBlock.value, old(extents), id, rec);
      }
      return Ok(id);
    }

    /**
     `write_inode`. The record lies where its id says, and the writer stays level with `inodeAddr`, unless
     a record of one whole block is written at a block boundary: then it lies a block before that.
     */
    method WriteInode(ino: Inode, tail: Option<Bytes>, xattrs: seq<Xattr>) returns (r: Result<nat, BuildError>)
      requires metaBlock.Some?
      modifies this`image, this`pos, this`inodeAddr, this`nInodes, this`extents
      ensures r.Ok? ==> RecordSize(StoreAll(xattrs), tail).Ok?
      ensures r.Ok? && old(Synced()) ==>
        var len, rec := RecordLen(StoreAll(xattrs), tail), Record(ino, StoreAll(xattrs), tail);
        if NextAddr(old(inodeAddr), len).Some?
        then && Synced() && NextAddr(old(inodeAddr), len) == Some(inodeAddr)
             && Appended(old(image), image, old(inodeAddr), inodeAddr, metaBlock.value, old(extents), extents,
                         r.value, rec)
             && InodeAddr(metaBlock.value, r.value) == PlaceFor(old(inodeAddr), len)
        else && inodeAddr == pos + BLOCK && Has(image, old(pos), rec)
             && InodeAddr(metaBlock.value, r.value) == old(pos) + BLOCK
      ensures old(Synced()) ==>
        (r.Ok? <==>
         && RecordSize(StoreAll(xattrs), tail).Ok?
         && PlaceFor(old(inodeAddr), RecordLen(StoreAll(xattrs), tail)) < BLOCK * metaBlock.value + ID_SPAN)
    {
      nInodes := nInodes + 1;
      var xs := StoreAll(xattrs);
      var total :- RecordSize(xs, tail);
      r := PlaceRecord(ino, xs, tail, total, Record(ino, xs, tail));
    }

    // ---------- walk 1: reserve dirent blocks ----------

    /** `on_dir_enter` of the first walk. */
    method EnterPrepare(d: Dir) returns (r: Result<Dir, BuildError>)
      requires d.children != []
      modifies this`curDataBlock
      ensures r.Ok? ==>
        && r.value == d.(startBlock := r.value.startBlock, perBlock := r.value.perBlock, totalSize := r.value.totalSize)
        && r.value.perBlock != [] && Sum(r.value.perBlock) == |d.children|
        && (LegalKids(d.children) ==> Prepared(r.value, old(curDataBlock)))
        && (LegalKids(d.children) ==> |r.value.perBlock| == BlockCount(d.children, 0))
        && curDataBlock == old(curDataBlock) + |r.value.perBlock|
      ensures r.Ok? <==> old(curDataBlock) < BLOCK_LIMIT
    {
      if curDataBlock >= 0x1_0000_0000 { return Err(BlockNoTooBig); }
      var perBlock, totalSize := PrepareDirentData(d.children);
      if LegalKids(d.children) {
        LegalFits(d.children);
        PackedCount(d.children, perBlock, 0);
      }
      r := Ok(d.(startBlock := curDataBlock, perBlock := perBlock, totalSize := totalSize));
      curDataBlock := curDataBlock + |perBlock|;
    }

    /** The first walk. The ghost flag `good` stands for the conditions under which the blocks are laid out right. */
    method WalkPrepare(d: Dir, depth: nat, ghost hi: nat, ghost good: bool) returns (r: Result<Dir, BuildError>)
      requires depth <= MAX_DEPTH && Fresh(d, hi) && (good ==> LegalTree(d))
      modifies this`curDataBlock
      ensures r.Ok? ==> DirPrepared(good, d, r.value, old(curDataBlock))
      ensures r.Ok? ==> curDataBlock == old(curDataBlock) + BlocksOf(r.value)
      ensures good && Shallow(d, MAX_DEPTH - depth) && old(curDataBlock) + TreeBlocks(d) <= BLOCK_LIMIT ==> r.Ok?
      decreases MAX_DEPTH - depth, 2
    {
      if depth == MAX_DEPTH { return Err(MaxDepthExceeded); }
      EntryMember(d.children, DOT_NAME);
      var dir :- EnterPrepare(d);
      ghost var from := curDataBlock;
      var kids :- PrepareChildren(d.children, depth, hi, good);
      PreparedTree(good, d, dir, kids, old(curDataBlock), from);
      return Ok(dir.(children := kids));
    }

    /** The loop over the children. */
    method PrepareChildren(kids0: seq<Child>, depth: nat, ghost hi: nat, ghost good: bool)
      returns (r: Result<seq<Child>, BuildError>)
      requires depth < MAX_DEPTH && KidsReady(good, kids0, hi)
      modifies this`curDataBlock
      ensures r.Ok? ==> |r.value| == |kids0| && KidsPrepared(good, kids0, r.value, |kids0|, old(curDataBlock))
      ensures r.Ok? ==> curDataBlock == old(curDataBlock) + BlocksBefore(r.value, |kids0|)
      ensures good && KidsShallow(kids0, MAX_DEPTH - depth - 1) ==>
        old(curDataBlock) + KidsBlocks(kids0, |kids0|) <= BLOCK_LIMIT ==> r.Ok?
      decreases MAX_DEPTH - depth, 1
    {
      var kids, i := kids0, 0;
      while i < |kids|
        invariant 0 <= i <= |kids| == |kids0| && KidsPrepared(good, kids0, kids, i, old(curDataBlock))
        invariant curDataBlock == old(curDataBlock) + BlocksBefore(kids, i)
      {
        assert KidReady(good, kids0, i, hi);
        ChildWithin(good, kids0, kids, i, old(curDataBlock));
        var node :- PrepareNode(kids[i].node, depth, hi, good);
        KidsPreparedStep(good, kids0, kids, node, i, old(curDataBlock));
        kids := kids[i := Child(kids[i].name, node)];
        i := i + 1;
      }
      return Ok(kids);
    }

    method PrepareNode(n: Dirent, depth: nat, ghost hi: nat, ghost good: bool) returns (r: Result<Dirent, BuildError>)
      requires depth < MAX_DEPTH && NodeFresh(n, hi) && (good ==> NodeLegal(n))
      modifies this`curDataBlock
      ensures r.Ok? ==> NodePrepared(good, n, r.value, old(curDataBlock))
      ensures r.Ok? ==> curDataBlock == old(curDataBlock) + (if r.value.SubDir? then BlocksOf(r.value.dir) else 0)
      ensures good && NodeShallow(n, MAX_DEPTH - depth - 1) ==>
        (n.SubDir? ==> old(curDataBlock) + TreeBlocks(n.dir) <= BLOCK_LIMIT) ==> r.Ok?
      decreases MAX_DEPTH - depth, 0
    {
      if n.SubDir? {
        var sub :- WalkPrepare(n.dir, depth + 1, hi, good);
        return Ok(SubDir(sub));
      }
      return Ok(n);
    }

    // ---------- walk 2: directory inodes ----------

    /** The second walk, `good` standing for a writer in step and records that keep it so. */
    method WalkDirInodes(d: Dir, depth: nat, ghost good: bool) returns (r: Result<Dir, BuildError>)
      requires depth <= MAX_DEPTH && metaBlock.Some? && Unnumbered(d, true)
      requires good ==> Synced() && DirsEnd(d, inodeAddr).Some?
      modifies this`image, this`pos, this`inodeAddr, this`nInodes, this`extents
      ensures r.Ok? ==> DirNumbered(good, image, metaBlock.value, d, r.value, old(inodeAddr), inodeAddr)
      ensures r.Ok? && good ==> Synced() && Advanced(old(image), image, old(inodeAddr), inodeAddr)
      ensures r.Ok? && good ==> DirsEnd(d, old(inodeAddr)) == Some(inodeAddr)
      ensures r.Ok? && good && old(inodeAddr) % BLOCK == 0 ==>
        InodeAddr(metaBlock.value, r.value.diskId.value) == old(inodeAddr)
      ensures good && Shallow(d, MAX_DEPTH - depth) && Accepted(d) ==>
        DirsEnd(d, old(inodeAddr)).value <= BLOCK * metaBlock.value + ID_SPAN ==> r.Ok?
      decreases MAX_DEPTH - depth, 2
    {
      if depth == MAX_DEPTH { return Err(MaxDepthExceeded); }
      DirsEndAfter(d, inodeAddr);
      var id :- EnterDirInode(d, good);
      ghost var mid, addr := image, inodeAddr;
      var kids :- DirInodesChildren(d.children, depth, good);
      NumberedTree(good, mid, image, metaBlock.value, d, id, kids, old(inodeAddr), addr, inodeAddr);
      if good { KeptTransitive(old(image), mid, image, old(inodeAddr), addr, inodeAddr); }
      return Ok(d.(diskId := Some(id), children := kids));
    }

    /** `on_dir_enter` of the second walk. */
    method EnterDirInode(d: Dir, ghost good: bool) returns (r: Result<nat, BuildError>)
      requires metaBlock.Some? && d.diskId.None? && (good ==> Synced() && NextAddr(inodeAddr, DirLen(d)).Some?)
      modifies this`image, this`pos, this`inodeAddr, this`nInodes, this`extents
      ensures r.Ok? && good ==> Synced() && Advanced(old(image), image, old(inodeAddr), inodeAddr)
      ensures r.Ok? && good ==> NextAddr(old(inodeAddr), DirLen(d)) == Some(inodeAddr)
      ensures r.Ok? && good ==>
        DirRecordAt(image, metaBlock.value, d.(diskId := Some(r.value)), old(inodeAddr), inodeAddr)
      ensures r.Ok? && good && old(inodeAddr) % BLOCK == 0 ==> InodeAddr(metaBlock.value, r.value) == old(inodeAddr)
      ensures good && DirAccepted(d) ==>
        NextAddr(old(inodeAddr), DirLen(d)).value <= BLOCK * metaBlock.value + ID_SPAN ==> r.Ok?
    {
      AcceptedInodes(d, Dot);
      if good { PlaceBefore(inodeAddr, DirLen(d)); }
      var ino :- DirInode(d);
      r := WriteInode(ino, None, d.meta.xattrs);
      if r.Ok? {
        CheckedRecord(d.meta.xattrs, None);
        PlacedAtBoundary(old(inodeAddr), DirLen(d));
      }
    }

    method DirInodesChildren(kids0: seq<Child>, depth: nat, ghost good: bool)
      returns (r: Result<seq<Child>, BuildError>)
      requires depth < MAX_DEPTH && metaBlock.Some? && KidsPending(kids0, true)
      requires good ==> Synced() && KidsDirsEnd(kids0, |kids0|, inodeAddr).Some?
      modifies this`image, this`pos, this`inodeAddr, this`nInodes, this`extents
      ensures r.Ok? ==> KidsNumbered(good, image, metaBlock.value, kids0, r.value, |kids0|, old(inodeAddr), inodeAddr)
      ensures r.Ok? && good ==> Synced() && Advanced(old(image), image, old(inodeAddr), inodeAddr)
      ensures r.Ok? && good ==> KidsDirsEnd(kids0, |kids0|, old(inodeAddr)) == Some(inodeAddr)
      ensures good && KidsShallow(kids0, MAX_DEPTH - depth - 1) && KidsAccepted(kids0) ==>
        KidsDirsEnd(kids0, |kids0|, old(inodeAddr)).value <= BLOCK * metaBlock.value + ID_SPAN ==> r.Ok?
      decreases MAX_DEPTH - depth, 1
    {
      hide NodeUnnumbered, DirsEnd, StreamTo, NodeNumbered, KidNumbered, NodeShallow, NodeAccepted;
      var kids, i := kids0, 0;
      while i < |kids|
        invariant 0 <= i <= |kids| == |kids0|
        invariant good ==> Synced() && Advanced(old(image), image, old(inodeAddr), inodeAddr)
        invariant good ==> KidsDirsEnd(kids0, i, old(inodeAddr)) == Some(inodeAddr)
        invariant KidsNumbered(good, image, metaBlock.value, kids0, kids, i, old(inodeAddr), inodeAddr)
      {
        ghost var before, addr := image, inodeAddr;
        if good { KidsDirsAfter(kids0, i + 1, |kids0|, old(inodeAddr)); }
        var node :- DirInodesNode(kids[i].node, depth, good);
        KidsNumberedStep(good, before, image, metaBlock.value, kids0, kids, node, i, old(inodeAddr), addr, inodeAddr);
        if good { KeptTransitive(old(image), before, image, old(inodeAddr), addr, inodeAddr); }
        kids := kids[i := Child(kids[i].name, node)];
        i := i + 1;
      }
      return Ok(kids);
    }

    method DirInodesNode(n: Dirent, depth: nat, ghost good: bool) returns (r: Result<Dirent, BuildError>)
      requires depth < MAX_DEPTH && metaBlock.Some? && NodeUnnumbered(n, true)
      requires good ==> Synced() && (n.SubDir? ==> DirsEnd(n.dir, inodeAddr).Some?)
      modifies this`image, this`pos, this`inodeAddr, this`nInodes, this`extents
      ensures r.Ok? ==> NodeNumbered(good, image, metaBlock.value, n, r.value, old(inodeAddr), inodeAddr)
      ensures r.Ok? && good ==> Synced() && Advanced(old(image), image, old(inodeAddr), inodeAddr)
      ensures r.Ok? && good ==>
        Some(inodeAddr) == if n.SubDir? then DirsEnd(n.dir, old(inodeAddr)) else Some(old(inodeAddr))
      ensures good && NodeShallow(n, MAX_DEPTH - depth - 1) && NodeAccepted(n) ==>
        (n.SubDir? ==> DirsEnd(n.dir, old(inodeAddr)).value <= BLOCK * metaBlock.value + ID_SPAN) ==> r.Ok?
      decreases MAX_DEPTH - depth, 0
    {
      if n.SubDir? {
        var sub :- WalkDirInodes(n.dir, depth + 1, good);
        return Ok(SubDir(sub));
      }
      return Ok(n);
    }

    // ---------- walk 3: file and symlink inodes ----------

    method WalkInodes(d: Dir, depth: nat, ghost good: bool) returns (r: Result<Dir, BuildError>)
      requires depth <= MAX_DEPTH && metaBlock.Some? && Unnumbered(d, false)
      requires good ==> Synced() && LeavesEnd(d, inodeAddr).Some?
      modifies this`image, this`pos, this`inodeAddr, this`nInodes, this`extents
      ensures r.Ok? ==> Grows(d, r.value)
      ensures r.Ok? && good ==> LeafInodes(image, metaBlock.value, r.value, old(inodeAddr), inodeAddr)
      ensures r.Ok? && good ==> Synced() && Advanced(old(image), image, old(inodeAddr), inodeAddr)
      ensures r.Ok? && good ==> LeavesEnd(d, old(inodeAddr)) == Some(inodeAddr)
      ensures good && Shallow(d, MAX_DEPTH - depth) && Accepted(d) ==>
        LeavesEnd(d, old(inodeAddr)).value <= BLOCK * metaBlock.value + ID_SPAN ==> r.Ok?
      decreases MAX_DEPTH - depth, 2
    {
      if depth == MAX_DEPTH { return Err(MaxDepthExceeded); }
      var kids :- InodesChildren(d.children, depth, good);
      FiledTree(good, image, metaBlock.value, d, kids, old(inodeAddr), inodeAddr);
      return Ok(d.(children := kids));
    }

    method InodesChildren(kids0: seq<Child>, depth: nat, ghost good: bool) returns (r: Result<seq<Child>, BuildError>)
      requires depth < MAX_DEPTH && metaBlock.Some? && KidsPending(kids0, false)
      requires good ==> Synced() && KidsLeavesEnd(kids0, |kids0|, inodeAddr).Some?
      modifies this`image, this`pos, this`inodeAddr, this`nInodes, this`extents
      ensures r.Ok? ==> KidsFiled(good, image, metaBlock.value, kids0, r.value, |kids0|, old(inodeAddr), inodeAddr)
      ensures r.Ok? && good ==> Synced() && Advanced(old(image), image, old(inodeAddr), inodeAddr)
      ensures r.Ok? && good ==> KidsLeavesEnd(kids0, |kids0|, old(inodeAddr)) == Some(inodeAddr)
      ensures good && KidsShallow(kids0, MAX_DEPTH - depth - 1) && KidsAccepted(kids0) ==>
        KidsLeavesEnd(kids0, |kids0|, old(inodeAddr)).value <= BLOCK * metaBlock.value + ID_SPAN ==> r.Ok?
      decreases MAX_DEPTH - depth, 1
    {
      hide NodeUnnumbered, NodeLeavesEnd, StreamTo, NodeFiled, KidFiled, NodeShallow, NodeAccepted;
      var kids, i := kids0, 0;
      while i < |kids|
        invariant 0 <= i <= |kids| == |kids0|
        invariant good ==> Synced() && Advanced(old(image), image, old(inodeAddr), inodeAddr)
        invariant good ==> KidsLeavesEnd(kids0, i, old(inodeAddr)) == Some(inodeAddr)
        invariant KidsFiled(good, image, metaBlock.value, kids0, kids, i, old(inodeAddr), inodeAddr)
      {
        ghost var before, addr := image, inodeAddr;
        if good { KidsLeavesAfter(kids0, i + 1, |kids0|, old(inodeAddr)); }
        var node :- InodesNode(kids[i].node, depth, good);
        KidsFiledStep(good, before, image, metaBlock.value, kids0, kids, node, i, old(inodeAddr), addr, inodeAddr);
        if good { KeptTransitive(old(image), before, image, old(inodeAddr), addr, inodeAddr); }
        kids := kids[i := Child(kids[i].name, node)];
        i := i + 1;
      }
      return Ok(kids);
    }

    method InodesNode(n: Dirent, depth: nat, ghost good: bool) returns (r: Result<Dirent, BuildError>)
      requires depth < MAX_DEPTH && metaBlock.Some? && NodeUnnumbered(n, false)
      requires good ==> Synced() && NodeLeavesEnd(n, inodeAddr).Some?
      modifies this`image, this`pos, this`inodeAddr, this`nInodes, this`extents
      ensures r.Ok? ==> NodeFiled(good, image, metaBlock.value, n, r.value, old(inodeAddr), inodeAddr)
      ensures r.Ok? && good ==> Synced() && Advanced(old(image), image, old(inodeAddr), inodeAddr)
      ensures r.Ok? && good ==> NodeLeavesEnd(n, old(inodeAddr)) == Some(inodeAddr)
      ensures good && NodeShallow(n, MAX_DEPTH - depth - 1) && NodeAccepted(n) ==>
        NodeLeavesEnd(n, old(inodeAddr)).value <= BLOCK * metaBlock.value + ID_SPAN ==> r.Ok?
      decreases MAX_DEPTH - depth, 0
    {
      if n.SubDir? {
        var sub :- WalkInodes(n.dir, depth + 1, good);
        return Ok(SubDir(sub));
      } else if IsLeaf(n) {
        var id :- EnterLeaf(n, good);
        var leaf := n.leaf.(diskId := Some(id));
        return Ok(if n.File? then File(leaf) else Link(leaf));
      }
      return Ok(n);
    }

    /** `on_file` and `on_symlink` of the third walk. */
    method EnterLeaf(n: Dirent, ghost good: bool) returns (r: Result<nat, BuildError>)
      requires IsLeaf(n) && metaBlock.Some? && n.leaf.diskId.None?
      requires good ==> Synced() && NextAddr(inodeAddr, LeafLen(n.leaf)).Some?
      modifies this`image, this`pos, this`inodeAddr, this`nInodes, this`extents
      ensures r.Ok? && good ==> Synced() && Advanced(old(image), image, old(inodeAddr), inodeAddr)
      ensures r.Ok? && good ==> NextAddr(old(inodeAddr), LeafLen(n.leaf)) == Some(inodeAddr)
      ensures r.Ok? && good ==>
        var leaf := n.leaf.(diskId := Some(r.value));
        LeafRecordAt(image, metaBlock.value, if n.File? then File(leaf) else Link(leaf), old(inodeAddr), inodeAddr)
      ensures good && LeafAccepted(n.leaf) ==>
        NextAddr(old(inodeAddr), LeafLen(n.leaf)).value <= BLOCK * metaBlock.value + ID_SPAN ==> r.Ok?
    {
      AcceptedInodes(root, n);
      if good { PlaceBefore(inodeAddr, LeafLen(n.leaf)); }
      var ino :- LeafInode(n);
      r := WriteInode(ino, n.leaf.tail, n.leaf.meta.xattrs);
      if r.Ok? { CheckedRecord(n.leaf.meta.xattrs, n.leaf.tail); }
    }

    // ---------- walk 4: dirents ----------

    /** `seek_block`: a seek only when the block is not the current one. */
    method SeekBlock(block: nat)
      modifies this`pos, this`curDataBlock
      ensures curDataBlock == block
      ensures old(curDataBlock) != block ==> pos == BLOCK * block
      ensures old(curDataBlock) == block ==> pos == old(pos)
    {
      if curDataBlock != block {
        pos := BLOCK * block;
        curDataBlock := block;
      }
    }

    /** The inner loop: `count` headers from `kids[lo]` on, their names collected. */
    method WriteHeaders(kids: seq<Child>, lo: nat, count: nat, self: Option<nat>, parent: Option<nat>)
      returns (r: Result<Bytes, BuildError>)
      requires lo + count <= |kids|
      modifies this`image, this`pos
      ensures r.Ok? ==> pos == old(pos) + DIRENT_SIZE * count && r.value == NamesTo(kids, lo, count)
      ensures r.Ok? && old(pos) <= |old(image)| ==>
        Has(image, old(pos), HeadersTo(kids, lo, count, DIRENT_SIZE * count, IdOrZero(self), IdOrZero(parent)))
      ensures Kept(old(image), image, old(pos), pos)
      ensures Identified(kids, self, parent) && Span(kids, lo, lo + count) <= BLOCK ==> r.Ok?
    {
      hide Has, Kept, Header, HeadersTo, NamesTo, NodeId, Span;
      var base := count * DIRENT_SIZE;
      var nameOffset, j := base, 0;
      var nameBuf := [];
      NoHeaders(image, pos, kids, lo, base, IdOrZero(self), IdOrZero(parent));
      while j < count
        invariant 0 <= j <= count && pos == old(pos) + DIRENT_SIZE * j
        invariant old(pos) <= |old(image)| ==>
          Has(image, old(pos), HeadersTo(kids, lo, j, base, IdOrZero(self), IdOrZero(parent)))
        invariant nameBuf == NamesTo(kids, lo, j) && nameOffset == base + |nameBuf|
        invariant Kept(old(image), image, old(pos), pos)
      {
        var c := kids[lo + j];
        var id := ChildId(c.node, self, parent);
        NamesSpan(kids, lo, j, count);
        if id.None? { return Err(NoDiskId); }
        if nameOffset >= 0x1_0000 { return Err(NameOffsetTooBig); }
        HeadersNext(kids, lo, j, base, self, parent);
        ghost var before := image;
        Extend(Header(DirentItem(id.value, TypeCode(c.node), c.name), nameOffset), old(pos),
               HeadersTo(kids, lo, j, base, IdOrZero(self), IdOrZero(parent)));
        KeptTransitive(old(image), before, image, old(pos), pos - DIRENT_SIZE, pos);
        nameBuf := nameBuf + c.name;
        nameOffset := nameOffset + |c.name|;
        j := j + 1;
      }
      return Ok(nameBuf);
    }

    /** One dirent block: headers, names, zeros; more than one block only if a name is too long for one. */
    method WriteGroup(kids: seq<Child>, lo: nat, count: nat, self: Option<nat>, parent: Option<nat>)
      returns (r: Result<(), BuildError>)
      requires lo + count <= |kids|
      modifies this`image, this`pos, this`curDataBlock
      ensures r.Ok? ==> curDataBlock == old(curDataBlock) + 1
      ensures r.Ok? && count >= 1 && Span(kids, lo, lo + count) <= BLOCK && old(pos) <= |old(image)| ==>
        var items := Items(kids, lo, lo + count, IdOrZero(self), IdOrZero(parent));
        && pos == old(pos) + BLOCK && BodyLen(items) <= BLOCK && Has(image, old(pos), Block(items))
        && Kept(old(image), image, old(pos), pos)
      ensures Identified(kids, self, parent) && Span(kids, lo, lo + count) <= BLOCK ==> r.Ok?
    {
      hide Has, Kept, Items, Span, Headers, Names, HeadersTo, NamesTo, NamesLen, Zeros;
      ghost var s, p := IdOrZero(self), IdOrZero(parent);
      ItemsLen(kids, lo, lo + count, s, p);
      HeadersOfItems(kids, lo, count, DIRENT_SIZE * count, s, p);
      ghost var items := Items(kids, lo, lo + count, s, p);
      var nameBuf :- WriteHeaders(kids, lo, count, self, parent);
      ghost var img1, pos1 := image, pos;
      Extend(nameBuf, old(pos), Headers(items, DIRENT_SIZE * count));
      ghost var img2, pos2 := image, pos;
      FinishBlock(DIRENT_SIZE * count + |nameBuf|, old(pos), Body(items));
      KeptTransitive(old(image), img1, img2, old(pos), pos1, pos2);
      KeptTransitive(old(image), img2, image, old(pos), pos2, pos);
      curDataBlock := curDataBlock + 1;
      return Ok(());
    }

    /** `zero_fill_block` after the bytes of one block. */
    method FinishBlock(written: nat, ghost start: nat, ghost body: Bytes)
      modifies this`image, this`pos
      ensures Kept(old(image), image, old(pos), pos) && old(pos) <= pos
      ensures 0 < written == |body| <= BLOCK && old(pos) == start + |body| && old(Has(image, start, body)) ==>
        pos == start + BLOCK && Has(image, start, body + Zeros(BLOCK - |body|))
    {
      var n := ZeroFill(written, BLOCK);
      if 0 < written == |body| <= BLOCK && old(pos) == start + |body| && old(Has(image, start, body)) {
        if n > 0 {
          KeptHas(old(image), image, old(pos), pos, start, body);
          HasJoin(image, start, body, Zeros(n));
        } else {
          assert body + Zeros(0) == body;
        }
      }
    }

    /** Block `k` of the directory's blocks `all`, after the ones before it. */
    method AppendGroup(kids: seq<Child>, lo: nat, count: nat, self: Option<nat>, parent: Option<nat>,
                       ghost start: nat, ghost all: seq<seq<DirentItem>>, ghost k: nat, ghost good: bool)
      returns (r: Result<(), BuildError>)
      requires lo + count <= |kids|
      requires good ==> GroupsOk(all) && k < |all|
      requires good ==> all[k] == Items(kids, lo, lo + count, IdOrZero(self), IdOrZero(parent))
      requires good ==> pos == start + BLOCK * k && Has(image, start, BlocksTo(all, k))
      modifies this`image, this`pos, this`curDataBlock
      ensures r.Ok? ==> curDataBlock == old(curDataBlock) + 1
      ensures r.Ok? && good ==> pos == old(pos) + BLOCK && Has(image, start, BlocksTo(all, k + 1))
      ensures r.Ok? && good ==> Kept(old(image), image, old(pos), pos)
      ensures good && Identified(kids, self, parent) ==> r.Ok?
    {
      hide Has, Kept, Items, Span, Block, LegalItems, Identified;
      if good {
        assert GroupOk(all[k]);
        HasEnds(image, start, BlocksTo(all, k));
        ItemsLen(kids, lo, lo + count, IdOrZero(self), IdOrZero(parent));
      }
      r := WriteGroup(kids, lo, count, self, parent);
      if r.Ok? && good {
        KeptHas(old(image), image, old(pos), pos, start, BlocksTo(all, k));
        HasJoin(image, start, BlocksTo(all, k), Block(all[k]));
      }
    }

    /** The directory's blocks, one group after the other. */
    method WriteGroups(d: Dir, parent: Option<nat>, ghost all: seq<seq<DirentItem>>, ghost good: bool)
      returns (r: Result<(), BuildError>)
      requires Sum(d.perBlock) == |d.children|
      requires good ==> Writable(d, IdOrZero(parent)) && all == DirGroups(d, IdOrZero(parent)) && pos <= |image|
      modifies this`image, this`pos, this`curDataBlock
      ensures r.Ok? ==> curDataBlock == old(curDataBlock) + |d.perBlock|
      ensures r.Ok? && good ==> pos == old(pos) + BLOCK * |all| && Has(image, old(pos), BlocksTo(all, |all|))
      ensures r.Ok? && good ==> Kept(old(image), image, old(pos), pos)
      ensures good && parent.Some? ==> r.Ok?
    {
      hide Items, Block, Kept, Has, Packs, IdsFit, LegalKids, DirGroups, Identified;
      if good && parent.Some? { AllIdentified(d, parent); }
      var k, lo := 0, 0;
      if good { NoBlocks(image, pos, all); }
      while k < |d.perBlock|
        invariant 0 <= k <= |d.perBlock| && lo == Sum(d.perBlock[..k])
        invariant curDataBlock == old(curDataBlock) + k
        invariant good ==> pos == old(pos) + BLOCK * k && Has(image, old(pos), BlocksTo(all, k))
        invariant good ==> Kept(old(image), image, old(pos), pos)
      {
        var count := d.perBlock[k];
        SumNext(d.perBlock, k);
        if good { NextGroup(d, IdOrZero(parent), k); }
        ghost var before, at := image, pos;
        var _ :- AppendGroup(d.children, lo, count, d.diskId, parent, old(pos), all, k, good);
        if good { KeptTransitive(old(image), before, image, old(pos), at, pos); }
        lo, k := lo + count, k + 1;
      }
      return Ok(());
    }

    /** `on_dir_enter` of the fourth walk. */
    method WriteDirents(d: Dir, parent: Option<nat>, ghost good: bool) returns (r: Result<(), BuildError>)
      requires Sum(d.perBlock) == |d.children|
      requires good ==> Writable(d, IdOrZero(parent)) && BLOCK * d.startBlock <= |image|
      requires good ==> pos == BLOCK * curDataBlock || curDataBlock != d.startBlock
      modifies this`image, this`pos, this`curDataBlock
      ensures r.Ok? && good ==> curDataBlock == d.startBlock + |d.perBlock| && pos == BLOCK * curDataBlock
      ensures r.Ok? && good ==> DirentsAt(image, d, IdOrZero(parent))
      ensures r.Ok? && good ==> Kept(old(image), image, BLOCK * d.startBlock, pos)
      ensures good && parent.Some? ==> r.Ok?
    {
      hide Has, Kept, Items, Block, Packs, LegalKids, IdsFit;
      SeekBlock(d.startBlock);
      ghost var all: seq<seq<DirentItem>> := if good then DirGroups(d, IdOrZero(parent)) else [];
      var _ :- WriteGroups(d, parent, all, good);
      if good { AllBlocks(all); }
      return Ok(());
    }

    /** The fourth walk, `good` standing for blocks reserved, ids given and names that fit. */
    method WalkDirents(d: Dir, depth: nat, ghost at: nat, ghost good: bool) returns (r: Result<(), BuildError>)
      requires depth <= MAX_DEPTH && Counts(d)
      requires good ==> Placed(d, at) && d.diskId.Some? && AllWritable(d, ParentOf(parents, d.diskId.value))
      requires good ==> BLOCK * (at + BlocksOf(d)) <= |image| && (pos == BLOCK * curDataBlock || curDataBlock != at)
      modifies this`image, this`pos, this`curDataBlock, this`parents
      ensures r.Ok? ==> parents == old(parents) && d.diskId.Some?
      ensures r.Ok? && good ==> pos == BLOCK * curDataBlock
      ensures r.Ok? && good ==> DirentsWritten(image, d, ParentOf(old(parents), d.diskId.value))
      ensures r.Ok? && good ==> Kept(old(image), image, BLOCK * at, BLOCK * (at + BlocksOf(d)))
      ensures good && Shallow(d, MAX_DEPTH - depth) ==> r.Ok?
      decreases MAX_DEPTH - depth, 2
    {
      hide DirentsWritten, DirentsAt, IdsFit, Packs, LegalKids, NodeShallow, Kept, Span, KidsListed;
      if depth == MAX_DEPTH { return Err(MaxDepthExceeded); }
      var parent := if parents == [] then d.diskId else Some(parents[|parents| - 1]);
      var _ :- WriteDirents(d, parent, good);
      if d.diskId.None? { return Err(NoDiskId); }
      ghost var mid := image;
      if good { KeptLonger(old(image), image, BLOCK * d.startBlock, pos); }
      parents := parents + [d.diskId.value];
      var _ :- DirentsChildren(d, depth, at, good);
      parents := parents[..|parents| - 1];
      if good {
        DirentsTree(mid, image, d, at, IdOrZero(parent));
        KeptTransitive(old(image), mid, image, BLOCK * at, BLOCK * (at + |d.perBlock|), BLOCK * (at + BlocksOf(d)));
      }
      return Ok(());
    }

    method DirentsChildren(d: Dir, depth: nat, ghost at: nat, ghost good: bool) returns (r: Result<(), BuildError>)
      requires depth < MAX_DEPTH && d.diskId.Some? && Counts(d)
      requires parents != [] && parents[|parents| - 1] == d.diskId.value
      requires good ==> Placed(d, at) && KidsWritable(d)
      requires good ==> BLOCK * (at + BlocksOf(d)) <= |image| && pos == BLOCK * curDataBlock
      modifies this`image, this`pos, this`curDataBlock, this`parents
      ensures r.Ok? ==> parents == old(parents)
      ensures r.Ok? && good ==> pos == BLOCK * curDataBlock && KidsListed(image, d, |d.children|)
      ensures r.Ok? && good ==> Kept(old(image), image, BLOCK * (at + |d.perBlock|), BLOCK * (at + BlocksOf(d)))
      ensures good && KidsShallow(d.children, MAX_DEPTH - depth - 1) ==> r.Ok?
      decreases MAX_DEPTH - depth, 1
    {
      hide DirentsWritten, AllWritable, Prepared, Placed;
      var i := 0;
      while i < |d.children|
        invariant 0 <= i <= |d.children| && parents == old(parents)
        invariant good ==> pos == BLOCK * curDataBlock && KidsListed(image, d, i)
        invariant good ==> Kept(old(image), image, BLOCK * (at + |d.perBlock|), BLOCK * ChildBlock(d, at, i))
      {
        ghost var before := image;
        if d.children[i].node.SubDir? {
          if good { ChildReady(d, at, i); }
          assert KidsShallow(d.children, MAX_DEPTH - depth - 1) ==>
              NodeShallow(d.children[i].node, MAX_DEPTH - depth - 1);
          var _ :- WalkDirents(d.children[i].node.dir, depth + 1, ChildBlock(d, at, i), good);
        }
        if good {
          KidsListedStep(before, image, d, at, i);
          KeptTransitive(old(image), before, image, BLOCK * (at + |d.perBlock|), BLOCK * ChildBlock(d, at, i),
                         BLOCK * ChildBlock(d, at, i + 1));
        }
        i := i + 1;
      }
      return Ok(());
    }

    // ---------- adding files ----------

    /** Between add operations: the writer at the next data block, the tree fresh, the files in place. */
    ghost predicate Valid()
      reads this
    {
      && 1 <= curDataBlock && pos == BLOCK * curDataBlock && (curDataBlock > 1 ==> pos <= |image|)
      && Fresh(root, curDataBlock) && FilesOk(image, root, given) && nInodes == 0
    }

    /** `Builder::new` on a writer that may already hold bytes. */
    constructor (w: Bytes, incrementUidGid: Option<u32>, maxFileSize: Option<u64>)
      ensures Valid() && given == map[] && image == w && links == []
      ensures this.incrementUidGid == incrementUidGid
      ensures this.maxFileSize == if maxFileSize.Some? then maxFileSize.value else 0xffff_ffff_ffff_ffff
    {
      image, pos, root := w, BLOCK, EmptyDir();
      curDataBlock, metaBlock, inodeAddr, nInodes, parents := 1, None, 0, 0, [];
      this.incrementUidGid := incrementUidGid;
      this.maxFileSize := if maxFileSize.Some? then maxFileSize.value else 0xffff_ffff_ffff_ffff;
      links, given, extents := [], map[], [];
      new;
      EmptyDirFresh(1);
      forall p ensures FileOk(image, root, given, p) { EmptyDirHasNothing(p); }
    }

    function Increment(): u32 {
      if incrementUidGid.Some? then incrementUidGid.value else 0
    }

    /** `hook_meta`: both owners moved up, unless one would not fit. */
    function HookMeta(meta: Meta): (r: Result<Meta, BuildError>)
      ensures r.Ok? <==> meta.uid + Increment() < 0x1_0000_0000 && meta.gid + Increment() < 0x1_0000_0000
      ensures r.Ok? ==> r.value.uid - meta.uid == r.value.gid - meta.gid == Increment()
      ensures r.Ok? ==> r.value.(uid := meta.uid, gid := meta.gid) == meta
    {
      match incrementUidGid
      case None => Ok(meta)
      case Some(inc) =>
        if meta.uid + inc >= 0x1_0000_0000 || meta.gid + inc >= 0x1_0000_0000 then Err(UidGidTooBig)
        else Ok(meta.(uid := meta.uid + inc, gid := meta.gid + inc))
    }

    /** The block part of a file, zero-filled to the block boundary. `data` may be short. */
    method AppendBlocks(data: Bytes, nBlocks: nat, blockLen: nat)
      requires Valid() && |data| <= blockLen && 0 < blockLen <= BLOCK * nBlocks < blockLen + BLOCK
      modifies this`image, this`pos, this`curDataBlock
      ensures curDataBlock == old(curDataBlock) + nBlocks
      ensures pos == BLOCK * curDataBlock - (blockLen - |data|)
      ensures |data| == blockLen ==> Valid() && Has(image, BLOCK * old(curDataBlock), data)
    {
      hide Fresh, FilesOk;
      WriteAll(data);
      ghost var mid, written := pos, image;
      curDataBlock := curDataBlock + nBlocks;
      var pad := ZeroFill(blockLen, BLOCK);
      PadToBlocks(blockLen, nBlocks);
      if |data| == blockLen {
        KeptHas(written, image, mid, pos, old(pos), data);
        KeptTransitive(old(image), written, image, old(pos), mid, pos);
        FilesKept(old(image), image, old(pos), pos, root, given, old(curDataBlock));
        FreshLater(root, old(curDataBlock), curDataBlock);
      }
    }

    /** `Root::add_file` and `Root::add_symlink`: the leaf goes into the tree. */
    method AddLeaf(path: Bytes, n: Dirent) returns (r: Result<(), BuildError>)
      requires Valid() && IsLeaf(n) && NodeFresh(n, curDataBlock)
      modifies this`root, this`given
      ensures Valid()
      ensures r.Ok? ==> given == Without(old(given), NamesOf(path))[NamesOf(path) := LeafData(image, n.leaf)]
      ensures r.Ok? ==> forall q :: LeafAt(root, q) == LeafAfter(old(root), NamesOf(path), n, q)
      ensures r.Ok? ==> forall q :: DirMetaAt(root, q) == DirMetaAfter(old(root), NamesOf(path), q)
      ensures r.Err? ==> given == old(given)
      ensures r.Ok? <==> Takes(old(root), path)
    {
      hide EditPath, Fresh, FilesOk, Components, Insertable, LeafAt, DirMetaAt;
      RawInsertIff(root, path, n, curDataBlock);
      if path != [] && path[|path| - 1] == SLASH { return Err(PathTrailingSlash); }
      InsertFiles(image, root, given, path, n, curDataBlock);
      FreshSorted(root, curDataBlock);
      var (root', res) := EditRaw(root, path, Insert(n));
      if res.Ok? {
        forall q
          ensures LeafAt(root', q) == LeafAfter(root, NamesOf(path), n, q)
          ensures DirMetaAt(root', q) == DirMetaAfter(root, NamesOf(path), q)
        {
          InsertedLeaf(root, Components(path), n, q);
          InsertedMeta(root, Components(path), n, q);
        }
        given := Without(given, NamesOf(path))[NamesOf(path) := LeafData(image, n.leaf)];
      }
      root := root';
      return res;
    }

    /**
     `add_file` from a reader that yields `contents`. When the reader holds too few bytes for the
     block part, the writer is left short of the current data block: exactly then is it out of step.
     */
    method AddFile(path: Bytes, meta: Meta, len: nat, contents: Bytes) returns (r: Result<(), BuildError>)
      requires Valid()
      modifies this`image, this`pos, this`curDataBlock, this`root, this`given
      ensures |contents| >= SizeTailLen(len).1 ==> Valid()
      ensures r.Ok? ==> (pos == BLOCK * curDataBlock <==> |contents| >= SizeTailLen(len).1)
      ensures len >= maxFileSize ==> r == Err(MaxSizeExceeded)
      ensures r.Ok? && |contents| >= SizeTailLen(len).1 ==>
        |contents| >= len && given == Without(old(given), NamesOf(path))[NamesOf(path) := contents[..len]]
      ensures r.Ok? && |contents| >= SizeTailLen(len).1 ==>
        exists l :: Describes(l, HookMeta(meta), len)
                    && forall q :: LeafAt(root, q) == LeafAfter(old(root), NamesOf(path), File(l), q)
      ensures r.Ok? && |contents| >= SizeTailLen(len).1 ==>
        forall q :: DirMetaAt(root, q) == DirMetaAfter(old(root), NamesOf(path), q)
      ensures r.Err? && |contents| >= SizeTailLen(len).1 ==> given == old(given)
      ensures r.Ok? <==>
        && len < maxFileSize && (SizeTailLen(len).1 > 0 ==> old(curDataBlock) < 0x1_0000_0000)
        && (SizeTailLen(len).2 > 0 ==> |contents| >= len) && HookMeta(meta).Ok? && Takes(old(root), path)
    {
      hide Has, Kept, Fresh, FilesOk, LeafData, EditRaw, LeafAfter, LeafAt, NamesOf, DirMetaAfter, DirMetaAt, HookMeta,
        Insertable, Components;
      if len >= maxFileSize { return Err(MaxSizeExceeded); }
      var (nBlocks, blockLen, tailLen) := SizeTailLen(len);
      var startBlock := NULL_ADDR;
      if blockLen > 0 {
        if curDataBlock >= 0x1_0000_0000 { return Err(BlockNoTooBig); }
        startBlock := curDataBlock;
      }
      var copied := if |contents| < blockLen then |contents| else blockLen;
      if blockLen > 0 { AppendBlocks(contents[..copied], nBlocks, blockLen); }
      var tail := None;
      if tailLen > 0 {
        if |contents| < copied + tailLen { return Err(ShortRead); }
        tail := Some(contents[copied..copied + tailLen]);
      }
      var meta' :- HookMeta(meta);
      var leaf := Leaf(meta', startBlock, 1, len, tail, None);
      if copied == blockLen {
        DataOfLeaf(image, leaf, contents);
        assert Describes(leaf, HookMeta(meta), len);
        r := AddLeaf(path, File(leaf));
      } else {
        RawInsertIff(root, path, File(leaf), old(curDataBlock));
        if path != [] && path[|path| - 1] == SLASH { return Err(PathTrailingSlash); }
        var (root', res) := EditRaw(root, path, Insert(File(leaf)));
        root := root';
        return res;
      }
    }

    /** `add_symlink` */
    method AddSymlink(path: Bytes, target: Bytes, meta: Meta) returns (r: Result<(), BuildError>)
      requires Valid() && |target| < 0x1_0000_0000_0000_0000
      modifies this`image, this`pos, this`curDataBlock, this`root, this`given
      ensures Valid()
      ensures r.Ok? ==> given == Without(old(given), NamesOf(path))[NamesOf(path) := target]
      ensures r.Ok? ==>
        exists l :: Describes(l, HookMeta(meta), |target|)
                    && forall q :: LeafAt(root, q) == LeafAfter(old(root), NamesOf(path), Link(l), q)
      ensures r.Ok? ==> forall q :: DirMetaAt(root, q) == DirMetaAfter(old(root), NamesOf(path), q)
      ensures r.Err? ==> given == old(given)
      ensures r.Ok? <==>
        && (SizeTailLen(|target|).1 > 0 ==> old(curDataBlock) < 0x1_0000_0000) && HookMeta(meta).Ok?
        && Takes(old(root), path)
    {
      hide Has, Kept, Fresh, FilesOk, LeafData, LeafAfter, LeafAt, NamesOf, DirMetaAfter, DirMetaAt, HookMeta,
        Insertable, Components;
      var (nBlocks, blockLen, tailLen) := SizeTailLen(|target|);
      var startBlock := NULL_ADDR;
      if blockLen > 0 {
        if curDataBlock >= 0x1_0000_0000 { return Err(BlockNoTooBig); }
        startBlock := curDataBlock;
        AppendBlocks(target[..blockLen], nBlocks, blockLen);
      }
      var tail := if tailLen > 0 then Some(target[blockLen..]) else None;
      var meta' :- HookMeta(meta);
      var leaf := Leaf(meta', startBlock, 1, |target|, tail, None);
      assert target[..|target|] == target;
      DataOfLeaf(image, leaf, target);
      assert Describes(leaf, HookMeta(meta), |target|);
      r := AddLeaf(path, Link(leaf));
    }

    /** `upsert_dir`: the directory at the path, made if need be, gets the metadata; no file changes. */
    method UpsertDir(path: Bytes, meta: Meta) returns (r: Result<(), BuildError>)
      requires Valid()
      modifies this`root
      ensures Valid()
      ensures r.Ok? <==>
        HookMeta(meta).Ok? && path != [] && (RootPath(path) || Upsertable(old(root), Components(path)))
      ensures r.Ok? ==>
        forall q :: DirMetaAt(root, q) == UpsertedMetaAt(old(root), NamesOf(path), HookMeta(meta).value, q)
      ensures forall q :: LeafAt(root, q) == LeafAt(old(root), q)
    {
      hide HookMeta, EditPath, Fresh, FilesOk, Components, Upsertable, DirMetaAt;
      var meta' :- HookMeta(meta);
      RawUpsertIff(root, path, meta', curDataBlock);
      UpsertFiles(image, root, given, path, meta', curDataBlock);
      FreshSorted(root, curDataBlock);
      var (root', res) := EditRaw(root, path, Upsert(meta'));
      forall q ensures LeafAt(root', q) == LeafAt(root, q) { UpsertKeepsLeaves(root, Components(path), meta', q); }
      if res.Ok? {
        forall q ensures DirMetaAt(root', q) == UpsertedMetaAt(root, NamesOf(path), meta', q) {
          UpsertedRaw(root, path, meta', q);
        }
      }
      root := root';
      return res;
    }

    // ---------- hard links ----------

    /** `add_link` */
    method AddLink(path: Bytes, target: Bytes, meta: Meta)
      requires Valid()
      modifies this`links
      ensures Valid() && links == old(links) + [HardLink(path, target, meta)]
    {
      links := links + [HardLink(path, target, meta)];
    }

    /** `resolve_links`: every link becomes a file with the bytes its target has by then. */
    method ResolveLinks() returns (r: Result<(), BuildError>)
      requires Valid()
      modifies this`root, this`links, this`given
      ensures Valid() && links == [] && root == LinkTree(old(root), old(links)).0
      ensures r.Ok? <==> LinkTree(old(root), old(links)).1.Ok?
      ensures r.Err? ==> r == LinkTree(old(root), old(links)).1
      ensures r.Ok? ==> given == Linked(old(given), old(links))
    {
      hide LinkOne, LinkedOne, NamesOf, Fresh, FilesOk;
      var pending, k := links, 0;
      links := [];
      while k < |pending|
        invariant 0 <= k <= |pending| && Valid() && links == []
        invariant root == LinkTree(old(root), pending[..k]).0 && LinkTree(old(root), pending[..k]).1.Ok?
        invariant given == Linked(old(given), pending[..k])
      {
        var l := pending[k];
        LinksStep(old(root), old(given), pending, k);
        LinkOneFiles(image, root, given, l, curDataBlock);
        var res := ResolveLink(l);
        if res.Err? {
          LinksFail(old(root), pending, k + 1);
          return res;
        }
        given := LinkedOne(given, l);
        k := k + 1;
      }
      assert pending[..k] == pending;
      return Ok(());
    }

    /** One link: the target counts one more, then the new file is inserted. */
    method ResolveLink(l: HardLink) returns (r: Result<(), BuildError>)
      modifies this`root
      ensures (root, r) == LinkOne(old(root), l)
    {
      var found :- FindRaw(root, l.target);
      if found.None? { return Err(HardlinkNotResolved); }
      var n := found.value;
      if !IsLeaf(n) { return Err(HardlinkToDir); }
      root := EditRaw(root, l.target, Insert(Bumped(n))).0;
      if l.path != [] && l.path[|l.path| - 1] == SLASH { return Err(PathTrailingSlash); }
      var (root', res) := EditRaw(root, l.path, Insert(LinkLeaf(n, l.meta)));
      root := root';
      return res;
    }

    // ---------- finishing ----------

    /** The second and third walk, from the reserved tree `d1` on. */
    method WalkBothInodes(d1: Dir, ghost d0: Dir, ghost first: nat, ghost good: bool)
      returns (r: Result<Dir, BuildError>, ghost mid: nat)
      requires metaBlock.Some? && DirPrepared(good, d0, d1, first)
      requires good ==> Synced() && inodeAddr == BLOCK * metaBlock.value && metaBlock.value == first + BlocksOf(d1)
      requires good ==> Buildable(d1)
      modifies this`image, this`pos, this`inodeAddr, this`nInodes, this`extents
      ensures r.Ok? ==> Counts(r.value)
      ensures r.Ok? && good ==> Synced() && Advanced(old(image), image, old(inodeAddr), inodeAddr)
      ensures r.Ok? && good ==>
        InodesDone(image, metaBlock.value, d0, r.value, first, mid, inodeAddr) && LegalTree(r.value)
      ensures good && WithinLimits(d1, 0) ==> r.Ok?
    {
      hide DirInodes, LeafInodes, Grows, Placed, Steady, LegalTree, Fresh, BlocksOf, DirentsWritten, AllWritable,
        Unnumbered, DirsEnd, KidsLeavesEnd, Counts, Shallow, Accepted, TreeBlocks;
      mid := 0;
      BlockAligned(metaBlock.value);
      if good {
        SteadyFrom(d1, metaBlock.value);
        EndsFrom(d1, metaBlock.value);
      }
      var d2 :- WalkDirInodes(d1, 0, good);
      ghost var img2 := image;
      mid := inodeAddr;
      if good { LeavesEndGrows(d1, d2, |d1.children|, mid); }
      SameSize(d1, d2);
      if WithinLimits(d1, 0) {
        ShallowGrows(d1, d2, MAX_DEPTH);
        AcceptedGrows(d1, d2);
      }
      var d3 :- WalkInodes(d2, 0, good);
      GrownTwice(d1, d2, d3);
      if good {
        InodesSettled(img2, image, metaBlock.value, d0, d1, d2, d3, first, mid, inodeAddr);
        KeptTransitive(old(image), img2, image, old(inodeAddr), mid, inodeAddr);
      }
      return Ok(d3), mid;
    }

    /** The meta block is the block after all data and dirent blocks; the inode stream starts there. */
    method StartInodes()
      requires nInodes == 0
      modifies this`pos, this`metaBlock, this`inodeAddr, this`extents
      ensures Synced() && metaBlock == Some(curDataBlock) && inodeAddr == BLOCK * curDataBlock
    {
      metaBlock, extents := Some(curDataBlock), [];
      BlockAligned(curDataBlock);
      inodeAddr := BLOCK * curDataBlock;
      pos := inodeAddr;
    }

    /** The first walk, and what it leaves for the others. */
    method ReserveBlocks(ghost good: bool) returns (r: Result<Dir, BuildError>)
      requires Fresh(root, curDataBlock) && (good ==> Buildable(root))
      modifies this`curDataBlock
      ensures r.Ok? ==> DirPrepared(good, root, r.value, old(curDataBlock))
      ensures r.Ok? && good ==> Buildable(r.value)
      ensures r.Ok? ==> curDataBlock == old(curDataBlock) + BlocksOf(r.value)
      ensures good && WithinLimits(root, old(curDataBlock)) ==>
        r.Ok? && WithinLimits(r.value, 0) && curDataBlock < BLOCK_LIMIT
    {
      hide Steady, Shallow, Accepted, TreeBlocks, DirsEnd, KidsLeavesEnd, BlocksOf, Placed, Grows;
      r := WalkPrepare(root, 0, curDataBlock, good);
      if r.Ok? && good {
        LegalGrows(root, r.value);
        SteadyGrows(root, r.value);
        ReservedBlocks(root, r.value, old(curDataBlock));
        if WithinLimits(root, old(curDataBlock)) { LimitsGrow(root, r.value, old(curDataBlock)); }
      }
    }

    /** The first three walks. */
    method WalkToDirents(ghost good: bool) returns (r: Result<Dir, BuildError>, ghost mid: nat)
      requires Fresh(root, curDataBlock) && nInodes == 0 && (good ==> Buildable(root))
      modifies this`image, this`pos, this`curDataBlock, this`metaBlock, this`inodeAddr, this`nInodes, this`extents
      ensures r.Ok? ==> metaBlock == Some(curDataBlock) && Counts(r.value)
      ensures r.Ok? && good ==> Synced() && Kept(old(image), image, BLOCK * curDataBlock, inodeAddr)
      ensures r.Ok? && good ==>
        && InodesDone(image, curDataBlock, root, r.value, old(curDataBlock), mid, inodeAddr) && LegalTree(r.value)
      ensures good && WithinLimits(root, old(curDataBlock)) ==> r.Ok? && curDataBlock < BLOCK_LIMIT
    {
      hide DirInodes, LeafInodes, Grows, Placed, Buildable, Fresh, BlocksOf, DirentsWritten, AllWritable, Unnumbered,
        Counts, LegalTree, WithinLimits;
      mid := 0;
      var d1 :- ReserveBlocks(good);
      StartInodes();
      r, mid := WalkBothInodes(d1, root, old(curDataBlock), good);
    }

    /** The fourth walk, from the numbered tree `d` on. */
    method FillDirents(d: Dir, ghost d0: Dir, ghost first: nat, ghost mid: nat, ghost end: nat, ghost good: bool)
      returns (r: Result<(), BuildError>)
      requires Counts(d) && (good ==> InodesDone(image, curDataBlock, d0, d, first, mid, end) && LegalTree(d))
      modifies this`image, this`pos, this`curDataBlock, this`parents
      ensures r.Ok? && good ==>
        Kept(old(image), image, BLOCK * first, BLOCK * old(curDataBlock)) && DirentsWritten(image, d, 0)
      ensures good && Shallow(d, MAX_DEPTH) ==> r.Ok?
    {
      hide DirInodes, LeafInodes, Grows, Placed, LegalTree, Fresh, BlocksOf, DirentsWritten, AllWritable, Unnumbered,
        Counts, Shallow;
      if good { ReadyForDirents(image, curDataBlock, d0, d, first, mid, end); }
      parents := [];
      r := WalkDirents(d, 0, first, good);
    }

    /**
     `write_inodes`, the four walks. For a buildable tree the first three leave `img`: dirent blocks reserved
     between the data and the meta block, inodes after it. The last one fills exactly the reserved blocks.
     */
    method WriteInodes() returns (r: Result<(), BuildError>, ghost img: Bytes, ghost mid: nat)
      requires Fresh(root, curDataBlock) && nInodes == 0
      modifies this`image, this`pos, this`root, this`curDataBlock, this`metaBlock, this`inodeAddr, this`nInodes,
               this`parents, this`extents
      ensures r.Ok? ==> metaBlock.Some?
      ensures r.Ok? && Buildable(old(root)) ==>
        && StreamTo(extents, metaBlock.value, inodeAddr) && nInodes == |extents|
        && Kept(old(image), img, BLOCK * metaBlock.value, inodeAddr)
        && InodesDone(img, metaBlock.value, old(root), root, old(curDataBlock), mid, inodeAddr)
        && Kept(img, image, BLOCK * old(curDataBlock), BLOCK * metaBlock.value) && DirentsWritten(image, root, 0)
      ensures Buildable(old(root)) && WithinLimits(old(root), old(curDataBlock)) ==>
        r.Ok? && metaBlock.value < BLOCK_LIMIT && root.diskId == Some(0)
    {
      hide InodesDone, Buildable, Fresh, DirentsWritten, Counts, LegalTree, WithinLimits, Shallow;
      ghost var first, good := curDataBlock, Buildable(root);
      var d;
      d, mid := WalkToDirents(good);
      img := image;
      if d.Err? { return Err(d.error), img, mid; }
      ghost var mb, end, exts := curDataBlock, inodeAddr, extents;
      if good { DoneRoot(image, mb, root, d.value, first, mid, end); }
      var _ :- FillDirents(d.value, root, first, mid, end, good);
      assert metaBlock == Some(mb) && inodeAddr == end && extents == exts && root == old(root);
      root := d.value;
      return Ok(()), img, mid;
    }

    /** `write_superblock` */
    method WriteSuperblock() returns (r: Result<Superblock, BuildError>)
      modifies this`image, this`pos
      ensures metaBlock.None? ==> r == Err(NoMetaBlock)
      ensures metaBlock.Some? && metaBlock.value >= 0x1_0000_0000 ==> r == Err(MetaBlockTooBig)
      ensures r.Ok? ==>
        && metaBlock == Some(r.value.metaBlkaddr) && root.diskId == Some(r.value.rootDiskId)
        && SuperFits(r.value) && r.value.blkszbits == 12 && r.value.inos == nInodes % 0x1_0000_0000_0000_0000
        && Has(image, SUPER_OFFSET, SuperBytes(r.value))
        && Kept(old(image), image, SUPER_OFFSET, SUPER_OFFSET + 128)
      ensures r.Ok? <==>
        && metaBlock.Some? && metaBlock.value < 0x1_0000_0000
        && root.diskId.Some? && root.diskId.value < 0x1_0000
    {
      if metaBlock.None? { return Err(NoMetaBlock); }
      if metaBlock.value >= 0x1_0000_0000 { return Err(MetaBlockTooBig); }
      if root.diskId.None? { return Err(NoRootDiskId); }
      if root.diskId.value >= 0x1_0000 { return Err(RootDiskIdTooBig); }
      var sb := Superblock(BLOCK_SIZE_BITS, root.diskId.value, nInodes % 0x1_0000_0000_0000_0000, metaBlock.value);
      SuperShape(sb);
      SuperLen(sb);
      pos := SUPER_OFFSET;
      WriteAll(SuperBytes(sb));
      return Ok(sb);
    }

    /**
     `finalize`: links resolved, everything written. The conditions are on the tree with its links, and
     under them every file is as given.
     */
    method Finish() returns (r: Result<Superblock, BuildError>)
      requires Valid()
      modifies this
      ensures r.Ok? ==> LinkTree(old(root), old(links)).1.Ok? && given == Linked(old(given), old(links))
      ensures r.Ok? && Buildable(LinkTree(old(root), old(links)).0) ==>
        && Complete(image, r.value, root) && FilesOk(image, root, given)
        && Grows(LinkTree(old(root), old(links)).0, root)
        && r.value.inos == |extents| % 0x1_0000_0000_0000_0000
        && LaidOut(old(image), image, old(curDataBlock), r.value.metaBlkaddr, root, extents, inodeAddr)
      ensures var (d, linked) := LinkTree(old(root), old(links));
        linked.Ok? && Buildable(d) && WithinLimits(d, old(curDataBlock)) ==> r.Ok?
    {
      hide InodesDone, Buildable, Fresh, DirentsWritten, Grows, Complete, LaidOut, FilesOk, StreamTo, LinkTree, Linked,
        WithinLimits;
      var linked := ResolveLinks();
      if linked.Err? { return Err(linked.error); }
      ghost var a, d0, first, good := image, root, curDataBlock, Buildable(root);
      ghost var img, mid := [], 0;
      var res;
      res, img, mid := WriteInodes();
      if res.Err? { return Err(res.error); }
      ghost var b := image;
      ghost var d, mb, exts, end := root, metaBlock.value, extents, inodeAddr;
      var sb :- WriteSuperblock();
      assert root == d && metaBlock.value == mb && extents == exts && inodeAddr == end;
      if good { Sealed(a, img, b, image, sb, d0, d, given, first, mid, exts, end); }
      return Ok(sb);
    }

    /**
     `into_inner`: the finished image. For a buildable tree, looking up any list of names in it gives what
     the names lead to in the tree, and every file, symlink and link reads back the bytes given for it.
     */
    method IntoInner() returns (r: Result<Bytes, BuildError>)
      requires Valid()
      modifies this
      ensures r.Ok? ==> LinkTree(old(root), old(links)).1.Ok? && given == Linked(old(given), old(links))
      ensures r.Ok? && Buildable(LinkTree(old(root), old(links)).0) ==>
        && Grows(LinkTree(old(root), old(links)).0, root)
        && (forall names :: Lookup(r.value, names) == Answer(Resolve(Spot([], SubDir(root)), names)))
        && (forall p :: p in given <==> LeafAt(root, p).Some?)
        && (forall p :: p in given ==> ReadPath(r.value, p) == Ok(Some(given[p])))
        && (forall names :: AttributesKept(r.value, root, names) && ListingKept(r.value, root, names))
      ensures var (d, linked) := LinkTree(old(root), old(links));
        linked.Ok? && Buildable(d) && WithinLimits(d, old(curDataBlock)) ==> r.Ok?
    {
      hide Complete, Grows, LaidOut, Buildable, Fresh, LinkTree, Linked, AttributesKept, ListingKept, WithinLimits;
      var sb :- Finish();
      if Buildable(LinkTree(old(root), old(links)).0) {
        forall names ensures Lookup(image, names) == Answer(Resolve(Spot([], SubDir(root)), names)) {
          LookupResolves(image, sb, root, names);
        }
        forall p ensures p in given <==> LeafAt(root, p).Some? {
          assert FileOk(image, root, given, p);
        }
        forall p | p in given ensures ReadPath(image, p) == Ok(Some(given[p])) {
          FilesReadBack(image, sb, root, given, p);
        }
        forall names ensures AttributesKept(image, root, names) && ListingKept(image, root, names) {
          AttributesReadBack(image, sb, root, names);
          ListsBack(image, sb, root, names);
        }
      }
      return Ok(image);
    }
  }

  /** Every entry leads somewhere. */
  predicate Identified(kids: seq<Child>, self: Option<nat>, parent: Option<nat>) {
    forall i :: 0 <= i < |kids| ==> ChildId(kids[i].node, self, parent).Some?
  }

  lemma AllIdentified(d: Dir, parent: Option<nat>)
    requires parent.Some? && Writable(d, parent.value)
    ensures Identified(d.children, d.diskId, parent)
  {
  }

  lemma LimitsGrow(d: Dir, d': Dir, at: nat)
    requires Grows(d, d') && WithinLimits(d, at) && Placed(d', at)
    ensures WithinLimits(d', 0)
  {
    hide Steady, Shallow, Accepted, TreeBlocks, DirsEnd, KidsLeavesEnd, BlocksOf, Placed;
    SteadyGrows(d, d');
    ShallowGrows(d, d', MAX_DEPTH);
    AcceptedGrows(d, d');
    ReservedBlocks(d, d', at);
    NodeGrowsSelf(SubDir(d'));
    ReservedBlocks(d', d', at);
    SteadySame(d, d');
  }

  lemma SteadySame(d: Dir, d': Dir)
    requires Grows(d, d') && Steady(d) && Steady(d')
    ensures DirsEnd(d', 0) == DirsEnd(d, 0)
    ensures LeavesEnd(d', DirsEnd(d, 0).value) == LeavesEnd(d, DirsEnd(d, 0).value)
  {
    hide DirsEnd, KidsLeavesEnd;
    DirsEndGrows(d, d', 0);
    LeavesEndGrows(d, d', |d.children|, DirsEnd(d, 0).value);
  }

  lemma {:induction false} NodeGrowsSelf(n: Dirent)
    ensures NodeGrows(n, n)
    decreases n
  {
    if n.SubDir? {
      forall i | 0 <= i < |n.dir.children| ensures NodeGrows(n.dir.children[i].node, n.dir.children[i].node) {
        NodeGrowsSelf(n.dir.children[i].node);
      }
    }
  }

  lemma DoneRoot(img: Bytes, mb: nat, d0: Dir, d: Dir, first: nat, mid: nat, end: nat)
    requires InodesDone(img, mb, d0, d, first, mid, end)
    ensures d.diskId == Some(0)
    ensures WithinLimits(d0, first) ==> Shallow(d, MAX_DEPTH)
  {
    hide DirInodes, LeafInodes, Placed, Grows, Shallow, Accepted, TreeBlocks, BlocksOf, Steady;
    if WithinLimits(d0, first) { ShallowGrows(d0, d, MAX_DEPTH); }
  }

  /** The checks of `addr_to_disk_id` on the address of the next record. */
  lemma IdOfAddr(before: nat, addr: nat, mb: nat, total: nat)
    requires addr == PlaceFor(before, total) && BLOCK * mb <= before && addr % INODE_ALIGNMENT == 0
    ensures BLOCK * mb <= addr && (addr - BLOCK * mb) % INODE_ALIGNMENT == 0
    ensures (addr - BLOCK * mb) / INODE_ALIGNMENT < 0x1_0000_0000 <==> addr < BLOCK * mb + ID_SPAN
  {
    hide PlaceFor;
    PlaceAfter(before, total);
    var q := addr / INODE_ALIGNMENT;
    assert addr == INODE_ALIGNMENT * q && addr - BLOCK * mb == INODE_ALIGNMENT * (q - 128 * mb);
  }

  lemma KeptLonger(a: Bytes, b: Bytes, lo: int, hi: int)
    requires Kept(a, b, lo, hi)
    ensures |a| <= |b|
  {
  }

  lemma NoEntries(xs: seq<Stored>, img: Bytes, pos: nat, sofar: Bytes)
    ensures sofar + EntriesBytes(xs[..0]) == sofar && Kept(img, img, pos, pos)
  {
  }

  lemma NextEntry(xs: seq<Stored>, k: nat, sofar: Bytes)
    requires k < |xs|
    ensures sofar + EntriesBytes(xs[..k + 1]) == sofar + EntriesBytes(xs[..k]) + EntryBytes(xs[k])
  {
    hide EntriesBytes, EntryBytes;
    EntriesSnoc(xs[..k], xs[k]);
    assert xs[..k] + [xs[k]] == xs[..k + 1];
  }

  lemma NoBlocks(img: Bytes, pos: nat, groups: seq<seq<DirentItem>>)
    requires GroupsOk(groups) && pos <= |img|
    ensures Has(img, pos, BlocksTo(groups, 0)) && Kept(img, img, pos, pos)
  {
  }

  lemma HasEnds(img: Bytes, off: nat, bs: Bytes)
    requires Has(img, off, bs)
    ensures off + |bs| <= |img|
  {
  }

  lemma NoHeaders(img: Bytes, pos: nat, kids: seq<Child>, lo: nat, base: nat, self: nat, parent: nat)
    requires lo <= |kids|
    ensures pos <= |img| ==> Has(img, pos, HeadersTo(kids, lo, 0, base, self, parent))
    ensures NamesTo(kids, lo, 0) == [] && Kept(img, img, pos, pos)
  {
  }

  lemma HeadersNext(kids: seq<Child>, lo: nat, j: nat, base: nat, self: Option<nat>, parent: Option<nat>)
    requires lo + j < |kids| && ChildId(kids[lo + j].node, self, parent).Some?
    ensures var c, s, p := kids[lo + j], IdOrZero(self), IdOrZero(parent);
      var item := DirentItem(ChildId(c.node, self, parent).value, TypeCode(c.node), c.name);
      && HeadersTo(kids, lo, j + 1, base, s, p)
         == HeadersTo(kids, lo, j, base, s, p) + Header(item, base + |NamesTo(kids, lo, j)|)
      && NamesTo(kids, lo, j + 1) == NamesTo(kids, lo, j) + c.name
  {
    hide Header, TypeCode;
  }

  lemma PadToBlocks(len: nat, n: nat)
    requires 0 < len <= BLOCK * n < len + BLOCK
    ensures len + PadLen(len, BLOCK) == BLOCK * n
  {
    var rem := BLOCK * n - len;
    assert len == BLOCK * n - rem && 0 <= rem < BLOCK;
    if rem == 0 {
      assert len % BLOCK == 0;
    } else {
      assert len == BLOCK * (n - 1) + (BLOCK - rem);
      assert len % BLOCK == BLOCK - rem;
    }
  }

  lemma FreshLater(d: Dir, hi: nat, hi': nat)
    requires Fresh(d, hi) && hi <= hi'
    ensures Fresh(d, hi')
  {
    NodeFreshMonotone(SubDir(d), hi, hi');
  }

  lemma PlacedAtBoundary(addr: nat, len: nat)
    ensures addr % BLOCK == 0 && len < BLOCK ==> PlaceFor(addr, len) == addr
  {
  }

  lemma SumNext(counts: seq<nat>, k: nat)
    requires k < |counts|
    ensures Sum(counts[..k + 1]) == Sum(counts[..k]) + counts[k] <= Sum(counts)
  {
    assert counts[..k + 1][..k] == counts[..k];
    SumAtMost(counts, k + 1);
  }

  lemma {:induction false} SumAtMost(counts: seq<nat>, k: nat)
    requires k <= |counts|
    ensures Sum(counts[..k]) <= Sum(counts)
    decreases |counts|
  {
    if k == |counts| {
      assert counts[..k] == counts;
    } else {
      var n := |counts| - 1;
      assert counts[..n][..k] == counts[..k];
      SumAtMost(counts[..n], k);
    }
  }

  lemma SameSize(d: Dir, d': Dir)
    requires Grows(d, d')
    ensures |d.children| == |d'.children|
  {
  }

  lemma GrownTwice(d1: Dir, d2: Dir, d3: Dir)
    requires Grows(d1, d2) && Grows(d2, d3) && Counts(d1)
    ensures Counts(d3) && (LegalTree(d1) ==> LegalTree(d3))
  {
    hide Grows, Counts, LegalTree;
    CountsGrow(d1, d2);
    CountsGrow(d2, d3);
    if LegalTree(d1) {
      LegalGrows(d1, d2);
      LegalGrows(d2, d3);
    }
  }

  /** The tree and the files after one link more. */
  lemma LinksStep(d: Dir, files: FileMap, links: seq<HardLink>, k: nat)
    requires k < |links| && LinkTree(d, links[..k]).1.Ok?
    ensures LinkTree(d, links[..k + 1]) == LinkOne(LinkTree(d, links[..k]).0, links[k])
    ensures NamesOf(links[k].target) in Linked(files, links[..k]) ==>
      Linked(files, links[..k + 1]) == LinkedOne(Linked(files, links[..k]), links[k])
  {
    hide LinkOne, LinkedOne;
    assert links[..k + 1][..k] == links[..k];
  }

  lemma {:induction false} LinksFail(d: Dir, links: seq<HardLink>, k: nat)
    requires k <= |links| && LinkTree(d, links[..k]).1.Err?
    ensures LinkTree(d, links) == LinkTree(d, links[..k])
    decreases |links|
  {
    hide LinkOne;
    if k == |links| {
      assert links[..k] == links;
    } else {
      var n := |links| - 1;
      assert links[..n][..k] == links[..k];
      LinksFail(d, links[..n], k);
    }
  }

  /** After the third walk: every directory's inode in [BLOCK * mb, mid), every leaf's in [mid, end). */
  ghost predicate InodesDone(img: Bytes, mb: nat, d0: Dir, d: Dir, first: nat, mid: nat, end: nat) {
    && Grows(d0, d) && Placed(d, first) && mb == first + BlocksOf(d) && d.diskId == Some(0)
    && BLOCK * mb <= mid <= end
    && DirInodes(img, mb, d, BLOCK * mb, mid) && LeafInodes(img, mb, d, mid, end)
  }

  lemma InodesSettled(img2: Bytes, img3: Bytes, mb: nat, d0: Dir, d1: Dir, d2: Dir, d3: Dir, first: nat, mid: nat,
                      end: nat)
    requires DirPrepared(true, d0, d1, first) && mb == first + BlocksOf(d1) && BLOCK * mb <= mid
    requires DirNumbered(true, img2, mb, d1, d2, BLOCK * mb, mid) && InodeAddr(mb, d2.diskId.value) == BLOCK * mb
    requires Advanced(img2, img3, mid, end) && Grows(d2, d3) && LeafInodes(img3, mb, d3, mid, end)
    ensures InodesDone(img3, mb, d0, d3, first, mid, end)
  {
    hide LeafInodes, BlocksOf, Placed;
    TreeSettled(d1, d2, d3, first);
    NodeGrowsTransitive(SubDir(d0), SubDir(d1), SubDir(d3));
    RootIdKept(d2, d3, mb);
    DirInodesSettled(img2, img3, mb, d2, d3, first, BLOCK * mb, mid, end);
  }

  lemma DirInodesSettled(img2: Bytes, img3: Bytes, mb: nat, d2: Dir, d3: Dir, at: nat, lo: nat, mid: nat, end: nat)
    requires Placed(d2, at) && DirInodes(img2, mb, d2, lo, mid) && Advanced(img2, img3, mid, end) && Grows(d2, d3)
    ensures DirInodes(img3, mb, d3, lo, mid)
  {
    DirInodesKept(img2, img3, mid, end, mb, d2, lo, mid, lo, mid);
    DirInodesGrow(img3, mb, d2, d3, lo, mid, at);
  }

  lemma RootIdKept(d: Dir, d': Dir, mb: nat)
    requires Grows(d, d') && d.diskId.Some? && InodeAddr(mb, d.diskId.value) == BLOCK * mb
    ensures d'.diskId == Some(0)
  {
  }

  lemma TreeSettled(d1: Dir, d2: Dir, d3: Dir, at: nat)
    requires Placed(d1, at) && Grows(d1, d2) && Grows(d2, d3)
    ensures Placed(d2, at)
    ensures Grows(d1, d3) && Placed(d3, at) && BlocksOf(d3) == BlocksOf(d1)
  {
    PlacedGrows(d1, d2, at);
    PlacedGrows(d2, d3, at);
    NodeGrowsTransitive(SubDir(d1), SubDir(d2), SubDir(d3));
  }

  /** With the root's inode at the meta block, the image reaches beyond it. */
  lemma RootWritten(img: Bytes, mb: nat, d: Dir, mid: nat)
    requires DirInodes(img, mb, d, BLOCK * mb, mid) && d.diskId == Some(0)
    ensures BLOCK * mb < |img|
  {
    assert |Record(DirInode(d).value, StoreAll(d.meta.xattrs), None)| >= 64;
  }

  lemma ReadyForDirents(img: Bytes, mb: nat, d0: Dir, d: Dir, first: nat, mid: nat, end: nat)
    requires InodesDone(img, mb, d0, d, first, mid, end) && LegalTree(d)
    ensures Placed(d, first) && mb == first + BlocksOf(d) && d.diskId == Some(0)
    ensures AllWritable(d, 0) && first < mb && BLOCK * (first + BlocksOf(d)) <= |img|
  {
    hide DirInodes, LeafInodes, Grows, LegalTree, AllWritable;
    ReadyToList(img, mb, d, first, 0, BLOCK * mb, mid, mid, end);
    RootWritten(img, mb, d, mid);
    assert Prepared(d, first);
  }

  lemma SuperLen(sb: Superblock)
    ensures |SuperBytes(sb)| == 128
  {
    var f := SuperFields(SUPER_MAGIC, sb);
    var f6 := f.rest.rest.rest.rest.rest.rest;
    assert Width(f6.rest.rest.rest.rest.rest) == 84;
    assert Width(f6.rest.rest.rest) == 92;
    assert Width(f6.rest) == 104;
    assert Width(f.rest.rest.rest.rest.rest) == 114;
    assert Width(f.rest.rest.rest) == 116;
    assert Width(f.rest) == 124;
  }

  /** The dirents go where nothing else is, and so does the superblock; together they complete the image. */
  lemma Completed(a: Bytes, b: Bytes, c: Bytes, sb: Superblock, d0: Dir, d: Dir, first: nat, mid: nat, end: nat)
    requires Fresh(d0, first) && 1 <= first && InodesDone(a, sb.metaBlkaddr, d0, d, first, mid, end)
    requires Kept(a, b, BLOCK * first, BLOCK * sb.metaBlkaddr) && DirentsWritten(b, d, 0)
    requires Kept(b, c, SUPER_OFFSET, SUPER_OFFSET + 128) && Has(c, SUPER_OFFSET, SuperBytes(sb))
    requires SuperFits(sb) && sb.blkszbits == 12 && sb.rootDiskId == 0
    ensures Complete(c, sb, d)
  {
    hide DirInodes, LeafInodes, Grows, Placed, DirentsWritten, Fresh, Finished;
    var mb, x, y := sb.metaBlkaddr, SUPER_OFFSET, SUPER_OFFSET + 128;
    InodesKept(a, b, BLOCK * first, BLOCK * mb, mb, d0, d, first, mid, end);
    InodesKept(b, c, x, y, mb, d0, d, first, mid, end);
    DirentsKept(b, c, x, y, d, first, 0);
    RootWritten(c, mb, d, mid);
    Assemble(c, mb, d0, d, first, first, 0, BLOCK * mb, mid, mid, end);
  }

  /** Nothing was written over a file's blocks on the way. */
  lemma FilesSurvive(a: Bytes, b: Bytes, c: Bytes, d0: Dir, d: Dir, files: FileMap, first: nat, end: nat)
    requires Fresh(d0, first) && 1 <= first && Grows(d0, d) && FilesOk(a, d0, files)
    requires (first > 1 ==> BLOCK * first <= |a|)
    requires Kept(a, b, BLOCK * first, end) && Kept(b, c, SUPER_OFFSET, SUPER_OFFSET + 128)
    ensures FilesOk(c, d, files)
  {
    FilesKept(a, b, BLOCK * first, end, d0, files, first);
    FilesKept(b, c, SUPER_OFFSET, SUPER_OFFSET + 128, d0, files, first);
    FilesGrow(c, d0, d, files);
  }

  /** From the builder's image `a` through the walks (`img`, then `b`) to the finished image `c`. */
  lemma Sealed(a: Bytes, img: Bytes, b: Bytes, c: Bytes, sb: Superblock, d0: Dir, d: Dir, files: FileMap,
               first: nat, mid: nat, exts: seq<Extent>, end: nat)
    requires Fresh(d0, first) && 1 <= first && FilesOk(a, d0, files) && (first > 1 ==> BLOCK * first <= |a|)
    requires StreamTo(exts, sb.metaBlkaddr, end)
    requires InodesDone(img, sb.metaBlkaddr, d0, d, first, mid, end) && Kept(a, img, BLOCK * sb.metaBlkaddr, end)
    requires Kept(img, b, BLOCK * first, BLOCK * sb.metaBlkaddr) && DirentsWritten(b, d, 0)
    requires Kept(b, c, SUPER_OFFSET, SUPER_OFFSET + 128) && Has(c, SUPER_OFFSET, SuperBytes(sb))
    requires SuperFits(sb) && sb.blkszbits == 12 && d.diskId == Some(sb.rootDiskId)
    ensures Complete(c, sb, d) && FilesOk(c, d, files) && Grows(d0, d)
    ensures LaidOut(a, c, first, sb.metaBlkaddr, d, exts, end)
  {
    hide DirInodes, LeafInodes, Grows, Placed, DirentsWritten, Fresh, Complete, FilesOk;
    var mb := sb.metaBlkaddr;
    Completed(img, b, c, sb, d0, d, first, mid, end);
    KeptBack(a, img, b, BLOCK * first, BLOCK * mb, end);
    FilesSurvive(a, b, c, d0, d, files, first, end);
    RootWritten(img, mb, d, mid);
  }

  /** The data blocks are as they were. */
  ghost predicate DataKept(before: Bytes, img: Bytes, first: nat) {
    forall i :: BLOCK <= i < BLOCK * first && i < |before| ==> i < |img| && img[i] == before[i]
  }

  lemma InodesKept(a: Bytes, b: Bytes, x: int, y: int, mb: nat, d0: Dir, d: Dir, first: nat, mid: nat, end: nat)
    requires InodesDone(a, mb, d0, d, first, mid, end) && Kept(a, b, x, y) && y <= BLOCK * mb
    ensures InodesDone(b, mb, d0, d, first, mid, end)
  {
    hide Placed, Grows, BlocksOf;
    DirInodesKept(a, b, x, y, mb, d, BLOCK * mb, mid, BLOCK * mb, mid);
    NodeLeafInodesKept(a, b, x, y, mb, SubDir(d), mid, end, mid, end);
  }

  /** Superblock, file blocks, dirent blocks and inode records in disjoint ranges, in this order. */
  ghost predicate LaidOut(before: Bytes, img: Bytes, first: nat, mb: nat, root: Dir, exts: seq<Extent>, end: nat) {
    && SUPER_OFFSET + 128 <= BLOCK <= BLOCK * first <= BLOCK * mb <= end && BLOCK * mb < |img|
    && DataKept(before, img, first) && Placed(root, first) && mb == first + BlocksOf(root)
    && StreamTo(exts, mb, end) && root.diskId == Some(0)
  }

  function UpsertedMetaAt(d: Dir, p: seq<Bytes>, meta: Meta, q: seq<Bytes>): Option<Meta> {
    if q == p then Some(meta)
    else if DirMetaAt(d, q).None? && q <= p then Some(DEFAULT_META)
    else DirMetaAt(d, q)
  }

  lemma UpsertedRaw(d: Dir, raw: Bytes, meta: Meta, q: seq<Bytes>)
    requires SortedTree(d) && EditRaw(d, raw, Upsert(meta)).1.Ok?
    ensures DirMetaAt(EditRaw(d, raw, Upsert(meta)).0, q) == UpsertedMetaAt(d, NamesOf(raw), meta, q)
  {
    if RootPath(raw) {
      RootNames(raw);
    } else {
      UpsertedMeta(d, Components(raw), meta, q);
    }
  }

  /** A leaf can be put at the path: it has no slash at its end and nothing on the way is a file. */
  ghost predicate Takes(d: Dir, path: Bytes) {
    !TrailingSlash(path) && Insertable(d, Components(path))
  }

  /** The leaf has this metadata and length, and one link. */
  predicate Describes(l: Leaf, meta: Result<Meta, BuildError>, len: nat) {
    meta == Ok(l.meta) && l.len == len && l.nLinks == 1
  }

  /** A leaf whose blocks were just written stands for the given bytes. */
  lemma DataOfLeaf(img: Bytes, l: Leaf, contents: Bytes)
    requires var (n, blockLen, tailLen) := SizeTailLen(l.len);
      && |contents| >= l.len
      && (blockLen > 0 ==> Has(img, BLOCK * l.startBlock, contents[..blockLen]))
      && l.tail == (if tailLen > 0 then Some(contents[blockLen..blockLen + tailLen]) else None)
    ensures LeafData(img, l) == contents[..l.len]
  {
    var blockLen := SizeTailLen(l.len).1;
    assert contents[..l.len] == contents[..blockLen] + contents[blockLen..l.len];
  }
}
