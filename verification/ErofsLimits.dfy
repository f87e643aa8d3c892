/**
 The limits within which the EROFS builder (peerofs/src/build.rs) finishes an image: how deep the tree may be,
 how many dirent blocks it takes, which inodes are accepted, and how far the inode numbers reach.
 */
module ErofsLimits {
  import opened Bytes
  import opened ErofsDisk
  import opened ErofsDirents
  import opened ErofsTree
  import opened ErofsXattr
  import opened ErofsPacking
  import opened ErofsStages
  import opened ErofsWalks
  import opened ErofsAddresses

  const BLOCK_LIMIT: nat := 0x1_0000_0000

  /** The bytes that 2^32 inode numbers reach. */
  const ID_SPAN: nat := INODE_ALIGNMENT * 0x1_0000_0000

  /** The largest tree that is written: all of it below the numbers the format has room for. */
  ghost predicate WithinLimits(d: Dir, first: nat) {
    && Shallow(d, MAX_DEPTH) && Accepted(d) && first + TreeBlocks(d) < BLOCK_LIMIT
    && Steady(d) && LeavesEnd(d, DirsEnd(d, 0).value).value <= ID_SPAN
  }

  // ---------- depth ----------

  /** Directories nest at most `n` deep, this one included. */
  ghost predicate Shallow(d: Dir, n: nat) {
    n >= 1 && KidsShallow(d.children, n - 1)
  }

  ghost predicate KidsShallow(kids: seq<Child>, n: nat) {
    forall i :: 0 <= i < |kids| ==> NodeShallow(kids[i].node, n)
  }

  ghost predicate NodeShallow(node: Dirent, n: nat) {
    node.SubDir? ==> Shallow(node.dir, n)
  }

  lemma {:induction false} ShallowGrows(d: Dir, d': Dir, n: nat)
    requires Grows(d, d') && Shallow(d, n)
    ensures Shallow(d', n)
    decreases d
  {
    forall i | 0 <= i < |d'.children| ensures NodeShallow(d'.children[i].node, n - 1) {
      assert NodeGrows(d.children[i].node, d'.children[i].node) && NodeShallow(d.children[i].node, n - 1);
      if d.children[i].node.SubDir? { ShallowGrows(d.children[i].node.dir, d'.children[i].node.dir, n - 1); }
    }
  }

  // ---------- inodes ----------

  predicate DirAccepted(d: Dir) {
    d.meta.mode < 0x1000 && RecordFits(d.meta.xattrs, None)
  }

  predicate LeafAccepted(l: Leaf) {
    l.meta.mode < 0x1000 && RecordFits(l.meta.xattrs, l.tail)
  }

  /** Names of at most 255 bytes after their prefix, values of at most 65535, and a record within one block. */
  predicate RecordFits(xattrs: seq<Xattr>, tail: Option<Bytes>) {
    && (forall i :: 0 <= i < |xattrs| ==> |Store(xattrs[i]).name| <= 255 && |xattrs[i].value| <= 65535)
    && RecordLen(StoreAll(xattrs), tail) <= BLOCK
  }

  lemma {:induction false} NoErrorIff(xs: seq<Stored>)
    ensures EntriesError(xs).None? <==> forall i :: 0 <= i < |xs| ==> EntryError(xs[i]).None?
  {
    hide EntryError;
    if xs != [] {
      NoErrorIff(xs[1..]);
      assert forall i :: 0 < i < |xs| ==> xs[i] == xs[1..][i - 1];
    }
  }

  /** The checks of `write_inode` pass exactly for records that fit. */
  lemma RecordSizeIff(xattrs: seq<Xattr>, tail: Option<Bytes>)
    ensures RecordSize(StoreAll(xattrs), tail).Ok? <==> RecordFits(xattrs, tail)
  {
    hide EntriesError, XattrCount, PrefixId;
    NoErrorIff(StoreAll(xattrs));
  }

  /** Every mode is permission bits and every inode, with attributes and tail, fits a block. */
  ghost predicate Accepted(d: Dir) {
    DirAccepted(d) && KidsAccepted(d.children)
  }

  ghost predicate KidsAccepted(kids: seq<Child>) {
    forall i :: 0 <= i < |kids| ==> NodeAccepted(kids[i].node)
  }

  ghost predicate NodeAccepted(n: Dirent) {
    match n
    case SubDir(d) => Accepted(d)
    case Dot => true
    case DotDot => true
    case _ => LeafAccepted(n.leaf)
  }

  lemma {:induction false} AcceptedGrows(d: Dir, d': Dir)
    requires Grows(d, d') && Accepted(d)
    ensures Accepted(d')
    decreases d
  {
    hide RecordFits;
    forall i | 0 <= i < |d'.children| ensures NodeAccepted(d'.children[i].node) {
      assert NodeGrows(d.children[i].node, d'.children[i].node) && NodeAccepted(d.children[i].node);
      if d.children[i].node.SubDir? { AcceptedGrows(d.children[i].node.dir, d'.children[i].node.dir); }
    }
  }

  lemma AcceptedInodes(d: Dir, n: Dirent)
    ensures DirAccepted(d) ==> DirInode(d).Ok? && RecordSize(StoreAll(d.meta.xattrs), None).Ok?
    ensures IsLeaf(n) && LeafAccepted(n.leaf) ==>
      LeafInode(n).Ok? && RecordSize(StoreAll(n.leaf.meta.xattrs), n.leaf.tail).Ok?
  {
    hide RecordSize, RecordFits, StoreAll;
    RecordSizeIff(d.meta.xattrs, None);
    if IsLeaf(n) { RecordSizeIff(n.leaf.meta.xattrs, n.leaf.tail); }
  }

  // ---------- dirent blocks ----------

  /** How far a block that starts with entry `lo` reaches, if it holds those before `hi`. */
  function GroupEnd(kids: seq<Child>, lo: nat, hi: nat): (r: nat)
    requires lo <= hi <= |kids|
    ensures hi <= r <= |kids|
    decreases |kids| - hi
  {
    if hi < |kids| && Span(kids, lo, hi + 1) <= BLOCK then GroupEnd(kids, lo, hi + 1) else hi
  }

  /** The number of blocks for the entries from `lo` on, each block filled as far as it goes. */
  function BlockCount(kids: seq<Child>, lo: nat): nat
    requires lo <= |kids|
    decreases |kids| - lo
  {
    if lo == |kids| then 0 else 1 + BlockCount(kids, GroupEnd(kids, lo, lo + 1))
  }

  /** The dirent blocks of the directory and of all directories below it. */
  function TreeBlocks(d: Dir): nat {
    BlockCount(d.children, 0) + KidsBlocks(d.children, |d.children|)
  }

  function KidsBlocks(kids: seq<Child>, i: nat): nat
    requires i <= |kids|
    decreases kids, i
  {
    if i == 0 then 0
    else KidsBlocks(kids, i - 1) + (if kids[i - 1].node.SubDir? then TreeBlocks(kids[i - 1].node.dir) else 0)
  }

  lemma {:induction false} GroupEndIs(kids: seq<Child>, lo: nat, hi: nat, end: nat)
    requires lo <= hi <= end <= |kids| && FullGroup(kids, lo, end)
    ensures GroupEnd(kids, lo, hi) == end
    decreases end - hi
  {
    if hi < end {
      SpanMonotone(kids, lo, hi + 1, end);
      GroupEndIs(kids, lo, hi + 1, end);
    }
  }

  lemma {:induction false} PackedCount(kids: seq<Child>, counts: seq<nat>, off: nat)
    requires Packs(kids, counts, off) && off + Sum(counts) == |kids|
    ensures |counts| == BlockCount(kids, off)
    decreases |counts|
  {
    if counts != [] {
      SumFront(counts);
      GroupEndIs(kids, off, off + 1, off + counts[0]);
      PackedCount(kids, counts[1..], off + counts[0]);
    }
  }

  lemma {:induction false} GroupEndSame(kids: seq<Child>, kids': seq<Child>, lo: nat, hi: nat)
    requires SameNames(kids, kids') && lo <= hi <= |kids|
    ensures GroupEnd(kids', lo, hi) == GroupEnd(kids, lo, hi)
    decreases |kids| - hi
  {
    if hi < |kids| {
      SpanSameNames(kids, kids', lo, hi + 1);
      GroupEndSame(kids, kids', lo, hi + 1);
    }
  }

  lemma {:induction false} BlockCountSame(kids: seq<Child>, kids': seq<Child>, lo: nat)
    requires SameNames(kids, kids') && lo <= |kids|
    ensures BlockCount(kids', lo) == BlockCount(kids, lo)
    decreases |kids| - lo
  {
    if lo < |kids| {
      GroupEndSame(kids, kids', lo, lo + 1);
      BlockCountSame(kids, kids', GroupEnd(kids, lo, lo + 1));
    }
  }

  /** What the first walk reserves is what the names take. */
  lemma {:induction false} ReservedBlocks(d0: Dir, d: Dir, at: nat)
    requires Grows(d0, d) && Placed(d, at)
    ensures BlocksOf(d) == TreeBlocks(d0)
    decreases d0, 1, 0
  {
    hide Packs, BlockCount, Span;
    PackedCount(d.children, d.perBlock, 0);
    BlockCountSame(d0.children, d.children, 0);
    ReservedBefore(d0, d, at, |d.children|);
  }

  lemma {:induction false} ReservedBefore(d0: Dir, d: Dir, at: nat, i: nat)
    requires Grows(d0, d) && Placed(d, at) && i <= |d.children|
    ensures BlocksBefore(d.children, i) == KidsBlocks(d0.children, i)
    decreases d0, 0, i
  {
    hide BlockCount;
    if i > 0 {
      ReservedBefore(d0, d, at, i - 1);
      var n0, n := d0.children[i - 1].node, d.children[i - 1].node;
      assert NodeGrows(n0, n) && ChildPlaced(d, at, i - 1);
      if n0.SubDir? { ReservedBlocks(n0.dir, n.dir, ChildBlock(d, at, i - 1)); }
    }
  }

  lemma {:induction false} PreparedBefore(kids0: seq<Child>, kids: seq<Child>, n: nat, i: nat, from: nat)
    requires i <= n && KidsPrepared(true, kids0, kids, n, from)
    ensures BlocksBefore(kids, i) == KidsBlocks(kids0, i)
    decreases i
  {
    hide TreeBlocks, BlocksOf, Placed, Grows;
    if i > 0 {
      PreparedBefore(kids0, kids, n, i - 1, from);
      assert KidPrepared(true, kids0, kids, i - 1, from);
      var n0, n1 := kids0[i - 1].node, kids[i - 1].node;
      if n0.SubDir? { ReservedBlocks(n0.dir, n1.dir, from + BlocksBefore(kids, i - 1)); }
    }
  }

  lemma {:induction false} KidsBlocksMonotone(kids: seq<Child>, i: nat, j: nat)
    requires i <= j <= |kids|
    ensures KidsBlocks(kids, i) <= KidsBlocks(kids, j)
    decreases j
  {
    hide TreeBlocks;
    if i < j { KidsBlocksMonotone(kids, i, j - 1); }
  }

  /** The next child's blocks are within those of all. */
  lemma ChildWithin(good: bool, kids0: seq<Child>, kids: seq<Child>, i: nat, from: nat)
    requires i < |kids0| == |kids| && KidsPrepared(good, kids0, kids, i, from)
    ensures good ==> BlocksBefore(kids, i) == KidsBlocks(kids0, i)
    ensures KidsBlocks(kids0, i + 1) <= KidsBlocks(kids0, |kids0|)
  {
    hide TreeBlocks, BlocksOf, KidPrepared;
    if good { PreparedBefore(kids0, kids, i, i, from); }
    KidsBlocksMonotone(kids0, i + 1, |kids0|);
  }

  // ---------- inode numbers ----------

  lemma PlaceBefore(addr: nat, len: nat)
    requires NextAddr(addr, len).Some? && len > 0
    ensures addr <= PlaceFor(addr, len) < NextAddr(addr, len).value
  {
    PlaceAfter(addr, len);
  }

  lemma PlaceAfter(addr: nat, len: nat)
    ensures addr <= PlaceFor(addr, len)
  {
    var b := (addr + len) / BLOCK;
    if addr / BLOCK != b { assert addr < b * BLOCK; }
  }

  lemma {:induction false} DirsEndAfter(d: Dir, addr: nat)
    ensures DirsEnd(d, addr).Some? ==> NextAddr(addr, DirLen(d)).Some?
    ensures DirsEnd(d, addr).Some? ==> addr <= NextAddr(addr, DirLen(d)).value <= DirsEnd(d, addr).value
    decreases d, 1, 0
  {
    hide PlaceFor, StoreAll;
    if DirsEnd(d, addr).Some? {
      PlaceBefore(addr, DirLen(d));
      KidsDirsAfter(d.children, 0, |d.children|, NextAddr(addr, DirLen(d)).value);
    }
  }

  /** Addresses only grow from child to child. */
  lemma {:induction false} KidsDirsAfter(kids: seq<Child>, i: nat, n: nat, addr: nat)
    requires i <= n <= |kids| && KidsDirsEnd(kids, n, addr).Some?
    ensures KidsDirsEnd(kids, i, addr).Some? && KidsDirsEnd(kids, i, addr).value <= KidsDirsEnd(kids, n, addr).value
    decreases kids, n
  {
    hide DirsEnd;
    if i < n {
      KidsDirsAfter(kids, i, n - 1, addr);
      if kids[n - 1].node.SubDir? { DirsEndAfter(kids[n - 1].node.dir, KidsDirsEnd(kids, n - 1, addr).value); }
    }
  }

  lemma {:induction false} NodeLeavesAfter(n: Dirent, addr: nat)
    ensures NodeLeavesEnd(n, addr).Some? ==> addr <= NodeLeavesEnd(n, addr).value
    decreases n, 0
  {
    hide NextAddr, StoreAll;
    if NodeLeavesEnd(n, addr).Some? {
      if n.SubDir? {
        KidsLeavesAfter(n.dir.children, 0, |n.dir.children|, addr);
      } else if IsLeaf(n) {
        PlaceBefore(addr, LeafLen(n.leaf));
      }
    }
  }

  lemma {:induction false} KidsLeavesAfter(kids: seq<Child>, i: nat, n: nat, addr: nat)
    requires i <= n <= |kids| && KidsLeavesEnd(kids, n, addr).Some?
    ensures KidsLeavesEnd(kids, i, addr).Some?
    ensures KidsLeavesEnd(kids, i, addr).value <= KidsLeavesEnd(kids, n, addr).value
    decreases kids, n
  {
    hide NodeLeavesEnd;
    if i < n {
      KidsLeavesAfter(kids, i, n - 1, addr);
      NodeLeavesAfter(kids[n - 1].node, KidsLeavesEnd(kids, n - 1, addr).value);
    }
  }

  /** The addresses of the tree's inodes from the meta block on. */
  lemma EndsFrom(d: Dir, block: nat)
    requires Steady(d)
    ensures DirsEnd(d, BLOCK * block) == Some(DirsEnd(d, 0).value + BLOCK * block)
    ensures LeavesEnd(d, DirsEnd(d, 0).value + BLOCK * block)
            == Some(LeavesEnd(d, DirsEnd(d, 0).value).value + BLOCK * block)
    ensures DirsEnd(d, 0).value <= LeavesEnd(d, DirsEnd(d, 0).value).value
  {
    hide DirsEnd, KidsLeavesEnd;
    ShiftDirs(d, 0, block);
    ShiftKidsLeaves(d.children, |d.children|, DirsEnd(d, 0).value, block);
    KidsLeavesAfter(d.children, 0, |d.children|, DirsEnd(d, 0).value);
    NoLeavesYet(d.children, DirsEnd(d, 0).value);
  }

  lemma NoLeavesYet(kids: seq<Child>, addr: nat)
    ensures KidsLeavesEnd(kids, 0, addr) == Some(addr)
  {
  }

  // ---------- dirents ----------

  lemma {:induction false} NamesSpan(kids: seq<Child>, lo: nat, j: nat, count: nat)
    requires j <= count && lo + count <= |kids|
    ensures DIRENT_SIZE * count + |NamesTo(kids, lo, count)| == Span(kids, lo, lo + count)
    ensures |NamesTo(kids, lo, j)| <= |NamesTo(kids, lo, count)|
    decreases count
  {
    if count > 0 { NamesSpan(kids, lo, if j < count then j else count - 1, count - 1); }
  }

  /** The limits can be met: the empty image is within them. */
  lemma EmptyWithin()
    ensures Buildable(EmptyDir()) && WithinLimits(EmptyDir(), 1)
  {
    hide TreeBlocks, DirsEnd, KidsLeavesEnd, StoreAll;
    EmptyEnds();
    EmptyBlocks();
    EmptyAccepted();
  }

  lemma EmptyEnds()
    ensures DirsEnd(EmptyDir(), 0) == Some(64) && LeavesEnd(EmptyDir(), 64) == Some(64)
  {
    var d := EmptyDir();
    var kids := d.children;
    assert DirLen(d) == 64 && NextAddr(0, 64) == Some(64);
    assert KidsDirsEnd(kids, 1, 64) == Some(64) && KidsDirsEnd(kids, 2, 64) == Some(64);
    assert KidsLeavesEnd(kids, 1, 64) == Some(64) && KidsLeavesEnd(kids, 2, 64) == Some(64);
  }

  lemma EmptyBlocks()
    ensures TreeBlocks(EmptyDir()) == 1
  {
    var kids := EmptyDir().children;
    assert Span(kids, 0, 1) == 13 && Span(kids, 0, 2) == 27;
    assert GroupEnd(kids, 0, 1) == 2 && KidsBlocks(kids, 1) == 0;
  }

  lemma EmptyAccepted()
    ensures Accepted(EmptyDir()) && Shallow(EmptyDir(), MAX_DEPTH) && LegalTree(EmptyDir())
  {
    assert RecordLen(StoreAll([]), None) == 64;
  }
}
