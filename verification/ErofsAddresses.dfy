/**
 The addresses that `write_inode` (peerofs/src/build.rs) gives to the inode records of a tree, as a
 function of the record lengths alone.
 */
module ErofsAddresses {
  import opened Bytes
  import opened ErofsDisk
  import opened ErofsDirents
  import opened ErofsTree
  import opened ErofsXattr
  import opened ErofsStages
  import opened ErofsWalks

  /**
   The address after a record of `len` bytes written at `addr`. A record of one whole block at a block
   boundary has none: its address moves on by a block that the writer does not skip.
   */
  function NextAddr(addr: nat, len: nat): Option<nat> {
    if len == BLOCK && addr % BLOCK == 0 then None
    else Some(PlaceFor(addr, len) + len + PadLen(len, INODE_ALIGNMENT))
  }

  /** Where the record goes: at `addr`, or at the next block if it would reach that. */
  function PlaceFor(addr: nat, len: nat): nat {
    if addr / BLOCK == (addr + len) / BLOCK then addr else (addr + len) / BLOCK * BLOCK
  }

  function DirLen(d: Dir): nat {
    RecordLen(StoreAll(d.meta.xattrs), None)
  }

  function LeafLen(l: Leaf): nat {
    RecordLen(StoreAll(l.meta.xattrs), l.tail)
  }

  /** The address after the inodes of the directory and of all directories below it. */
  function DirsEnd(d: Dir, addr: nat): Option<nat> {
    match NextAddr(addr, DirLen(d))
    case None => None
    case Some(a) => KidsDirsEnd(d.children, |d.children|, a)
  }

  function KidsDirsEnd(kids: seq<Child>, i: nat, addr: nat): Option<nat>
    requires i <= |kids|
    decreases kids, i
  {
    if i == 0 then Some(addr)
    else
      match KidsDirsEnd(kids, i - 1, addr)
      case None => None
      case Some(a) => if kids[i - 1].node.SubDir? then DirsEnd(kids[i - 1].node.dir, a) else Some(a)
  }

  /** The address after the inodes of all files and symlinks below the node. */
  function NodeLeavesEnd(n: Dirent, addr: nat): Option<nat> {
    match n
    case SubDir(d) => KidsLeavesEnd(d.children, |d.children|, addr)
    case Dot => Some(addr)
    case DotDot => Some(addr)
    case _ => NextAddr(addr, LeafLen(n.leaf))
  }

  function KidsLeavesEnd(kids: seq<Child>, i: nat, addr: nat): Option<nat>
    requires i <= |kids|
    decreases kids, i
  {
    if i == 0 then Some(addr)
    else
      match KidsLeavesEnd(kids, i - 1, addr)
      case None => None
      case Some(a) => NodeLeavesEnd(kids[i - 1].node, a)
  }

  function LeavesEnd(d: Dir, addr: nat): Option<nat> {
    KidsLeavesEnd(d.children, |d.children|, addr)
  }

  /** No record of one whole block comes to a block boundary. */
  predicate Steady(d: Dir) {
    DirsEnd(d, 0).Some? && LeavesEnd(d, DirsEnd(d, 0).value).Some?
  }

  // ---------- only the address within the block matters ----------

  function Shift(a: Option<nat>, k: nat): Option<nat> {
    if a.None? then None else Some(a.value + BLOCK * k)
  }

  lemma ShiftNext(addr: nat, len: nat, k: nat)
    ensures NextAddr(addr + BLOCK * k, len) == Shift(NextAddr(addr, len), k)
  {
    hide PadLen;
    assert (addr + BLOCK * k) % BLOCK == addr % BLOCK;
    assert (addr + BLOCK * k) / BLOCK == addr / BLOCK + k;
    assert (addr + BLOCK * k + len) / BLOCK == (addr + len) / BLOCK + k;
  }

  lemma {:induction false} ShiftDirs(d: Dir, addr: nat, k: nat)
    ensures DirsEnd(d, addr + BLOCK * k) == Shift(DirsEnd(d, addr), k)
  {
    hide NextAddr, KidsDirsEnd, DirLen;
    ShiftNext(addr, DirLen(d), k);
    if NextAddr(addr, DirLen(d)).Some? {
      ShiftKidsDirs(d.children, |d.children|, NextAddr(addr, DirLen(d)).value, k);
    }
  }

  lemma {:induction false} ShiftKidsDirs(kids: seq<Child>, i: nat, addr: nat, k: nat)
    requires i <= |kids|
    ensures KidsDirsEnd(kids, i, addr + BLOCK * k) == Shift(KidsDirsEnd(kids, i, addr), k)
    decreases kids, i
  {
    hide DirsEnd;
    if i > 0 {
      ShiftKidsDirs(kids, i - 1, addr, k);
      var a := KidsDirsEnd(kids, i - 1, addr);
      if a.Some? && kids[i - 1].node.SubDir? { ShiftDirs(kids[i - 1].node.dir, a.value, k); }
    }
  }

  lemma {:induction false} ShiftLeaves(n: Dirent, addr: nat, k: nat)
    ensures NodeLeavesEnd(n, addr + BLOCK * k) == Shift(NodeLeavesEnd(n, addr), k)
  {
    hide NextAddr;
    if n.SubDir? {
      ShiftKidsLeaves(n.dir.children, |n.dir.children|, addr, k);
    } else if IsLeaf(n) {
      ShiftNext(addr, LeafLen(n.leaf), k);
    }
  }

  lemma {:induction false} ShiftKidsLeaves(kids: seq<Child>, i: nat, addr: nat, k: nat)
    requires i <= |kids|
    ensures KidsLeavesEnd(kids, i, addr + BLOCK * k) == Shift(KidsLeavesEnd(kids, i, addr), k)
    decreases kids, i
  {
    hide NodeLeavesEnd;
    if i > 0 {
      ShiftKidsLeaves(kids, i - 1, addr, k);
      var a := KidsLeavesEnd(kids, i - 1, addr);
      if a.Some? { ShiftLeaves(kids[i - 1].node, a.value, k); }
    }
  }

  /** Steadiness is the same from the start of any block. */
  lemma SteadyFrom(d: Dir, block: nat)
    requires Steady(d)
    ensures DirsEnd(d, BLOCK * block).Some? && LeavesEnd(d, DirsEnd(d, BLOCK * block).value).Some?
  {
    hide DirsEnd, KidsLeavesEnd;
    ShiftDirs(d, 0, block);
    ShiftKidsLeaves(d.children, |d.children|, DirsEnd(d, 0).value, block);
  }

  // ---------- the walks do not change it ----------

  lemma {:induction false} DirsEndGrows(d: Dir, d': Dir, addr: nat)
    requires Grows(d, d')
    ensures DirsEnd(d', addr) == DirsEnd(d, addr)
    decreases d, 1, 0
  {
    hide NextAddr;
    if NextAddr(addr, DirLen(d)).Some? {
      KidsDirsEndGrows(d, d', |d.children|, NextAddr(addr, DirLen(d)).value);
    }
  }

  lemma {:induction false} KidsDirsEndGrows(d: Dir, d': Dir, i: nat, addr: nat)
    requires Grows(d, d') && i <= |d.children|
    ensures KidsDirsEnd(d'.children, i, addr) == KidsDirsEnd(d.children, i, addr)
    decreases d, 0, i
  {
    hide DirsEnd;
    if i > 0 {
      KidsDirsEndGrows(d, d', i - 1, addr);
      var n, n' := d.children[i - 1].node, d'.children[i - 1].node;
      assert NodeGrows(n, n');
      var a := KidsDirsEnd(d.children, i - 1, addr);
      if a.Some? && n.SubDir? { DirsEndGrows(n.dir, n'.dir, a.value); }
    }
  }

  lemma {:induction false} NodeLeavesEndGrows(n: Dirent, n': Dirent, addr: nat)
    requires NodeGrows(n, n')
    ensures NodeLeavesEnd(n', addr) == NodeLeavesEnd(n, addr)
    decreases n, 0
  {
    hide NextAddr, KidsLeavesEnd;
    if n.SubDir? { LeavesEndGrows(n.dir, n'.dir, |n.dir.children|, addr); }
  }

  lemma {:induction false} LeavesEndGrows(d: Dir, d': Dir, i: nat, addr: nat)
    requires Grows(d, d') && i <= |d.children|
    ensures KidsLeavesEnd(d'.children, i, addr) == KidsLeavesEnd(d.children, i, addr)
    decreases d, i
  {
    hide NodeLeavesEnd;
    if i > 0 {
      LeavesEndGrows(d, d', i - 1, addr);
      var n, n' := d.children[i - 1].node, d'.children[i - 1].node;
      assert NodeGrows(n, n');
      var a := KidsLeavesEnd(d.children, i - 1, addr);
      if a.Some? { NodeLeavesEndGrows(n, n', a.value); }
    }
  }

  lemma SteadyGrows(d: Dir, d': Dir)
    requires Grows(d, d') && Steady(d)
    ensures Steady(d')
  {
    hide DirsEnd, KidsLeavesEnd;
    DirsEndGrows(d, d', 0);
    LeavesEndGrows(d, d', |d.children|, DirsEnd(d, 0).value);
  }

  // ---------- what the builder does not check ----------

  /**
   Names that fit a dirent block and hold no zero byte, and no record of one whole block at a block
   boundary: conditions on the tree that the builder leaves to its caller.
   */
  ghost predicate Buildable(d: Dir) {
    LegalTree(d) && Steady(d)
  }

  /** A directory's record can be exactly one block, so the builder can be made to fall out of step. */
  lemma OneBlockRecord()
    ensures var xattrs := [Xattr(USER + [97], Zeros(4015))];
      RecordSize(StoreAll(xattrs), None) == Ok(BLOCK) && NextAddr(0, RecordLen(StoreAll(xattrs), None)) == None
  {
    var x := Xattr(USER + [97], Zeros(4015));
    assert PREFIXES[0] == USER <= x.key;
    assert x.key[|USER|..] == [97];
    var xs := StoreAll([x]);
    assert xs == [Stored(1, [97], x.value)] && xs[1..] == [];
    EntriesStep(xs);
    assert EntriesError(xs[1..]) == None;
  }
}
