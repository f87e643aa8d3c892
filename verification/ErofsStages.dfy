/**
 What the tree and the image look like between the four walks of `write_inodes`
 (peerofs/src/build.rs), and that later walks keep what earlier ones established.
 */
module ErofsStages {
  import opened Bytes
  import opened Paths
  import opened ErofsDisk
  import opened ErofsDirents
  import opened ErofsTree
  import opened ErofsXattr
  import opened ErofsPacking
  import opened ErofsImage

  // ---------- inode records ----------

  const TYPE_REGULAR: nat := 8
  const TYPE_DIR: nat := 4
  const TYPE_SYMLINK: nat := 10

  /** `make_inode`; the disk id and the attribute count are filled in when it is written. */
  function MakeInode(typ: nat, size: nat, startBlock: nat, meta: Meta, inline: bool, nLinks: nat)
    : Result<Inode, BuildError>
  {
    var mode := typ * 4096 + meta.mode;
    if mode >= 0x1_0000 then Err(ModeShouldFitInU16)
    else Ok(Inode(0, true, if inline then FlatInline else FlatPlain, 0, mode, size, startBlock,
                  meta.uid, meta.gid, meta.mtime, nLinks))
  }

  function TailBytes(tail: Option<Bytes>): Bytes {
    if tail.Some? then tail.value else []
  }

  function LeafInode(n: Dirent): Result<Inode, BuildError>
    requires IsLeaf(n)
  {
    MakeInode(if n.File? then TYPE_REGULAR else TYPE_SYMLINK,
              n.leaf.len, n.leaf.startBlock, n.leaf.meta, n.leaf.tail.Some?, n.leaf.nLinks)
  }

  function DirInode(d: Dir): Result<Inode, BuildError> {
    MakeInode(TYPE_DIR, d.totalSize, d.startBlock, d.meta, false, 1)
  }

  function Counted(ino: Inode, xs: seq<Stored>): Inode {
    ino.(xattrCount := XattrCount(xs))
  }

  lemma InodeBytesLen(ino: Inode)
    ensures |InodeBytes(ino)| == 64
  {
    var f := ExtendedFields(1 + 2 * LayoutCode(ino.layout), ino);
    var g := f.rest.rest.rest.rest.rest.rest;
    assert Width(g.rest.rest.rest.rest.rest) == 20;
    assert Width(g.rest.rest.rest) == 32;
    assert Width(g.rest) == 40;
    assert Width(f.rest.rest.rest.rest.rest) == 48;
    assert Width(f.rest.rest.rest) == 58;
    assert Width(f.rest) == 62;
  }

  /** Everything `write_inode` writes for one inode before the alignment padding. */
  function Record(ino: Inode, xs: seq<Stored>, tail: Option<Bytes>): (r: Bytes)
    ensures |r| == RecordLen(xs, tail)
  {
    InodeBytesLen(Counted(ino, xs));
    XattrBytesLen(xs);
    InodeBytes(Counted(ino, xs)) + XattrBytes(xs) + TailBytes(tail)
  }

  function RecordLen(xs: seq<Stored>, tail: Option<Bytes>): nat {
    64 + XattrLen(XattrCount(xs)) + |TailBytes(tail)|
  }

  function InodeAddr(metaBlock: nat, id: nat): nat {
    BLOCK * metaBlock + INODE_ALIGNMENT * id
  }

  /** The record lies at the address its disk id names, within [lo, hi). */
  predicate RecordAt(img: Bytes, mb: nat, id: Option<nat>, rec: Bytes, lo: nat, hi: nat) {
    && id.Some? && id.value < 0x1_0000_0000
    && lo <= InodeAddr(mb, id.value) && InodeAddr(mb, id.value) + |rec| <= hi
    && Has(img, InodeAddr(mb, id.value), rec)
  }

  predicate DirRecordAt(img: Bytes, mb: nat, d: Dir, lo: nat, hi: nat) {
    && DirInode(d).Ok? && EntriesOk(StoreAll(d.meta.xattrs)) && XattrCount(StoreAll(d.meta.xattrs)) < 0x1_0000
    && RecordAt(img, mb, d.diskId, Record(DirInode(d).value, StoreAll(d.meta.xattrs), None), lo, hi)
  }

  predicate LeafRecordAt(img: Bytes, mb: nat, n: Dirent, lo: nat, hi: nat)
    requires IsLeaf(n)
  {
    var xs := StoreAll(n.leaf.meta.xattrs);
    && LeafInode(n).Ok? && EntriesOk(xs) && XattrCount(xs) < 0x1_0000
    && RecordAt(img, mb, n.leaf.diskId, Record(LeafInode(n).value, xs, n.leaf.tail), lo, hi)
  }

  // ---------- after walk 2 and walk 3: inodes in place ----------

  /** Every directory of the tree has its inode in [lo, hi). */
  ghost predicate DirInodes(img: Bytes, mb: nat, d: Dir, lo: nat, hi: nat) {
    && DirRecordAt(img, mb, d, lo, hi)
    && forall i :: 0 <= i < |d.children| && d.children[i].node.SubDir? ==>
         DirInodes(img, mb, d.children[i].node.dir, lo, hi)
  }

  /** Every file and symlink of the tree has its inode in [lo, hi). */
  ghost predicate LeafInodes(img: Bytes, mb: nat, d: Dir, lo: nat, hi: nat) {
    forall i :: 0 <= i < |d.children| ==> NodeLeafInodes(img, mb, d.children[i].node, lo, hi)
  }

  ghost predicate NodeLeafInodes(img: Bytes, mb: nat, n: Dirent, lo: nat, hi: nat) {
    match n
    case SubDir(s) => LeafInodes(img, mb, s, lo, hi)
    case Dot => true
    case DotDot => true
    case _ => LeafRecordAt(img, mb, n, lo, hi)
  }

  lemma RecordKept(a: Bytes, b: Bytes, x: int, y: int, mb: nat, id: Option<nat>, rec: Bytes, lo: nat, hi: nat,
                   lo': nat, hi': nat)
    requires RecordAt(a, mb, id, rec, lo, hi) && Kept(a, b, x, y) && lo' <= lo && hi <= hi' && (hi <= x || y <= lo)
    ensures RecordAt(b, mb, id, rec, lo', hi')
  {
    KeptHas(a, b, x, y, InodeAddr(mb, id.value), rec);
  }

  /** Writing outside [lo, hi) keeps the directory inodes in it. */
  lemma {:induction false} DirInodesKept(a: Bytes, b: Bytes, x: int, y: int, mb: nat, d: Dir, lo: nat, hi: nat,
                                         lo': nat, hi': nat)
    requires DirInodes(a, mb, d, lo, hi) && Kept(a, b, x, y) && lo' <= lo && hi <= hi' && (hi <= x || y <= lo)
    ensures DirInodes(b, mb, d, lo', hi')
    decreases d
  {
    RecordKept(a, b, x, y, mb, d.diskId, Record(DirInode(d).value, StoreAll(d.meta.xattrs), None), lo, hi, lo', hi');
    forall i | 0 <= i < |d.children| && d.children[i].node.SubDir?
      ensures DirInodes(b, mb, d.children[i].node.dir, lo', hi')
    {
      DirInodesKept(a, b, x, y, mb, d.children[i].node.dir, lo, hi, lo', hi');
    }
  }

  lemma {:induction false} NodeLeafInodesKept(a: Bytes, b: Bytes, x: int, y: int, mb: nat, n: Dirent, lo: nat,
                                              hi: nat, lo': nat, hi': nat)
    requires NodeLeafInodes(a, mb, n, lo, hi) && Kept(a, b, x, y) && lo' <= lo && hi <= hi' && (hi <= x || y <= lo)
    ensures NodeLeafInodes(b, mb, n, lo', hi')
    decreases n
  {
    match n
    case SubDir(s) =>
      forall i | 0 <= i < |s.children| ensures NodeLeafInodes(b, mb, s.children[i].node, lo', hi') {
        NodeLeafInodesKept(a, b, x, y, mb, s.children[i].node, lo, hi, lo', hi');
      }
    case Dot =>
    case DotDot =>
    case _ =>
      var rec := Record(LeafInode(n).value, StoreAll(n.leaf.meta.xattrs), n.leaf.tail);
      RecordKept(a, b, x, y, mb, n.leaf.diskId, rec, lo, hi, lo', hi');
  }

  // ---------- after walk 1: dirent blocks reserved ----------

  function BlocksOf(d: Dir): nat
    decreases d
  {
    |d.perBlock| + BlocksBefore(d.children, |d.children|)
  }

  /** Dirent blocks of the subtrees of `kids[..i]`. */
  function BlocksBefore(kids: seq<Child>, i: nat): nat
    requires i <= |kids|
    decreases kids, i
  {
    if i == 0 then 0
    else BlocksBefore(kids, i - 1) + (if kids[i - 1].node.SubDir? then BlocksOf(kids[i - 1].node.dir) else 0)
  }

  /** The directory's own layout: `prepare_dirent_data` has been run for block `at`. */
  predicate Prepared(d: Dir, at: nat) {
    && d.startBlock == at && d.perBlock != [] && Packing(d.children, d.perBlock)
    && d.perBlock[|d.perBlock| - 1] <= |d.children|
    && d.totalSize == BLOCK * (|d.perBlock| - 1)
                      + Span(d.children, |d.children| - d.perBlock[|d.perBlock| - 1], |d.children|)
  }

  /** The block of the first dirent block of `d.children[i]`, in walk order. */
  function ChildBlock(d: Dir, at: nat, i: nat): nat
    requires i <= |d.children|
  {
    at + |d.perBlock| + BlocksBefore(d.children, i)
  }

  /** Directories have consecutive, hence disjoint, runs of blocks from `at` on, in walk order. */
  ghost predicate Placed(d: Dir, at: nat)
    decreases d, 1
  {
    Prepared(d, at) && forall i :: 0 <= i < |d.children| ==> ChildPlaced(d, at, i)
  }

  ghost predicate ChildPlaced(d: Dir, at: nat, i: nat)
    requires i < |d.children|
    decreases d, 0
  {
    d.children[i].node.SubDir? ==> Placed(d.children[i].node.dir, ChildBlock(d, at, i))
  }

  /** The counts of every directory add up to its entries, whatever the names. */
  ghost predicate Counts(d: Dir) {
    && d.perBlock != [] && Sum(d.perBlock) == |d.children|
    && forall i :: 0 <= i < |d.children| && d.children[i].node.SubDir? ==> Counts(d.children[i].node.dir)
  }

  lemma {:induction false} BlocksBeforeMonotone(kids: seq<Child>, i: nat, j: nat)
    requires i <= j <= |kids|
    ensures BlocksBefore(kids, i) <= BlocksBefore(kids, j)
    decreases j
  {
    if i < j { BlocksBeforeMonotone(kids, i, j - 1); }
  }

  /** The blocks of a child's subtree lie after the directory's own and inside the directory's run. */
  lemma ChildRange(d: Dir, at: nat, i: nat)
    requires i < |d.children| && d.children[i].node.SubDir?
    ensures at + |d.perBlock| <= ChildBlock(d, at, i)
    ensures ChildBlock(d, at, i) + BlocksOf(d.children[i].node.dir) == ChildBlock(d, at, i + 1) <= at + BlocksOf(d)
  {
    BlocksBeforeMonotone(d.children, i + 1, |d.children|);
  }

  // ---------- after walk 4: dirents written ----------

  /** The directory's entries, ready to be written: names legal, every child with an id. */
  predicate Writable(d: Dir, parent: nat) {
    && Packs(d.children, d.perBlock, 0) && LegalKids(d.children) && d.diskId.Some?
    && IdsFit(d.children, d.diskId.value, parent)
  }

  function DirGroups(d: Dir, parent: nat): (r: seq<seq<DirentItem>>)
    requires Writable(d, parent)
    ensures GroupsOk(r) && |r| == |d.perBlock|
  {
    ItemGroupsOk(d.children, d.perBlock, 0, d.diskId.value, parent);
    ItemGroups(d.children, d.perBlock, 0, d.diskId.value, parent)
  }

  predicate DirentsAt(img: Bytes, d: Dir, parent: nat) {
    Writable(d, parent) && Has(img, BLOCK * d.startBlock, Blocks(DirGroups(d, parent)))
  }

  /** Every directory's dirents are in its blocks, "." naming itself and ".." the directory above. */
  ghost predicate DirentsWritten(img: Bytes, d: Dir, parent: nat) {
    && DirentsAt(img, d, parent)
    && forall i :: 0 <= i < |d.children| && d.children[i].node.SubDir? ==>
         DirentsWritten(img, d.children[i].node.dir, d.diskId.value)
  }

  /** All directories of the tree are ready to be written. */
  ghost predicate AllWritable(d: Dir, parent: nat)
    decreases d, 1
  {
    Writable(d, parent) && forall i :: 0 <= i < |d.children| ==> ChildWritable(d, i)
  }

  ghost predicate ChildWritable(d: Dir, i: nat)
    requires i < |d.children| && d.diskId.Some?
    decreases d, 0
  {
    d.children[i].node.SubDir? ==> AllWritable(d.children[i].node.dir, d.diskId.value)
  }

  lemma {:induction false} DirentsKept(a: Bytes, b: Bytes, x: int, y: int, d: Dir, at: nat, parent: nat)
    requires Placed(d, at) && DirentsWritten(a, d, parent) && Kept(a, b, x, y)
    requires BLOCK * (at + BlocksOf(d)) <= x || y <= BLOCK * at
    ensures DirentsWritten(b, d, parent)
    decreases d
  {
    KeptHas(a, b, x, y, BLOCK * at, Blocks(DirGroups(d, parent)));
    forall i | 0 <= i < |d.children| && d.children[i].node.SubDir?
      ensures DirentsWritten(b, d.children[i].node.dir, d.diskId.value)
    {
      assert ChildPlaced(d, at, i);
      ChildRange(d, at, i);
      DirentsKept(a, b, x, y, d.children[i].node.dir, ChildBlock(d, at, i), d.diskId.value);
    }
  }

  // ---------- the tree before the walks ----------

  /** The leaf's bytes: whole blocks below block `hi`, and the tail in memory. */
  predicate Backed(l: Leaf, hi: nat) {
    var (n, blockLen, tailLen) := SizeTailLen(l.len);
    && l.len < 0x1_0000_0000_0000_0000
    && (blockLen == 0 ==> l.startBlock == NULL_ADDR)
    && (blockLen > 0 ==> 1 <= l.startBlock && l.startBlock + n <= hi)
    && (if l.tail.Some? then |l.tail.value| == tailLen > 0 else tailLen == 0)
  }

  /** The bytes a leaf stands for. */
  function LeafData(img: Bytes, l: Leaf): Bytes {
    var blockLen := SizeTailLen(l.len).1;
    var begin := BLOCK * l.startBlock;
    (if blockLen > 0 && begin + blockLen <= |img| then img[begin..begin + blockLen] else [])
    + TailBytes(l.tail)
  }

  /** "." and ".." are there, and nothing else is a dot entry. */
  predicate DotsOk(kids: seq<Child>) {
    && Entry(kids, DOT_NAME) == Some(Dot) && Entry(kids, DOTDOT_NAME) == Some(DotDot)
    && forall i :: 0 <= i < |kids| ==>
         && (kids[i].node.Dot? ==> kids[i].name == DOT_NAME)
         && (kids[i].node.DotDot? ==> kids[i].name == DOTDOT_NAME)
  }

  /** A tree as the add operations leave it: sorted, its data below block `hi`, untouched by any walk. */
  ghost predicate Fresh(d: Dir, hi: nat) {
    && d.diskId.None? && d.perBlock == [] && Sorted(d.children) && DotsOk(d.children)
    && forall i :: 0 <= i < |d.children| ==> NodeFresh(d.children[i].node, hi)
  }

  ghost predicate NodeFresh(n: Dirent, hi: nat) {
    match n
    case SubDir(s) => Fresh(s, hi)
    case File(l) => Backed(l, hi) && l.diskId.None?
    case Link(l) => Backed(l, hi) && l.diskId.None?
    case _ => true
  }

  lemma {:induction false} NodeFreshMonotone(n: Dirent, hi: nat, hi': nat)
    requires NodeFresh(n, hi) && hi <= hi'
    ensures NodeFresh(n, hi')
    decreases n
  {
    if n.SubDir? {
      forall i | 0 <= i < |n.dir.children| ensures NodeFresh(n.dir.children[i].node, hi') {
        NodeFreshMonotone(n.dir.children[i].node, hi, hi');
      }
    }
  }

  lemma FreshSorted(d: Dir, hi: nat)
    requires Fresh(d, hi)
    ensures SortedTree(d)
    decreases d
  {
    forall i | 0 <= i < |d.children| && d.children[i].node.SubDir? ensures SortedTree(d.children[i].node.dir) {
      assert NodeFresh(d.children[i].node, hi);
      FreshSorted(d.children[i].node.dir, hi);
    }
  }

  lemma EmptyDirFresh(hi: nat)
    ensures Fresh(EmptyDir(), hi)
  {
    var kids := EmptyDir().children;
    PrefixLess(DOT_NAME, DOTDOT_NAME);
    assert kids[1..][0] == kids[1];
  }

  lemma PutFresh(d: Dir, name: Bytes, n: Dirent, hi: nat)
    requires Fresh(d, hi) && PlainName(name) && NodeFresh(n, hi) && !n.Dot? && !n.DotDot?
    ensures Fresh(d.(children := Put(d.children, name, n)), hi)
  {
    var kids := Put(d.children, name, n);
    PutSorted(d.children, name, n);
    EntryPut(d.children, name, n, DOT_NAME);
    EntryPut(d.children, name, n, DOTDOT_NAME);
    forall i | 0 <= i < |kids|
      ensures NodeFresh(kids[i].node, hi)
      ensures (kids[i].node.Dot? ==> kids[i].name == DOT_NAME) && (kids[i].node.DotDot? ==> kids[i].name == DOTDOT_NAME)
    {
      PutMembers(d.children, name, n, kids[i]);
    }
  }

  predicate PlainComponents(comps: seq<Component>) {
    forall i :: 0 <= i < |comps| && comps[i].Normal? ==> PlainName(comps[i].name)
  }

  /** Every add operation keeps the tree fresh, also when it fails. */
  lemma {:induction false} EditFresh(d: Dir, comps: seq<Component>, edit: Edit, hi: nat)
    requires Fresh(d, hi) && PlainComponents(comps)
    requires edit.Insert? ==> IsLeaf(edit.node) && NodeFresh(edit.node, hi)
    ensures Fresh(EditPath(d, comps, edit).0, hi)
    decreases |comps|
  {
    if comps == [] || (|comps| == 1 && !comps[0].Normal?) {
    } else if |comps| == 1 && edit.Insert? {
      PutFresh(d, comps[0].name, edit.node, hi);
    } else if comps[0].Normal? && GetOrCreate(d, comps[0].name).Ok? {
      var name := comps[0].name;
      EntryMember(d.children, name);
      EmptyDirFresh(hi);
      var s := GetOrCreate(d, name).value;
      EditFresh(s, comps[1..], edit, hi);
      PutFresh(d, name, SubDir(EditPath(s, comps[1..], edit).0), hi);
    } else if !comps[0].Normal? && !comps[0].ParentDir? {
      EditFresh(d, comps[1..], edit, hi);
    }
  }

  lemma {:induction false} LeafAtFresh(d: Dir, path: seq<Bytes>, hi: nat)
    requires Fresh(d, hi) && LeafAt(d, path).Some?
    ensures IsLeaf(LeafAt(d, path).value) && NodeFresh(LeafAt(d, path).value, hi)
    decreases |path|
  {
    EntryMember(d.children, path[0]);
    var n := Entry(d.children, path[0]).value;
    assert NodeFresh(n, hi);
    if n.SubDir? { LeafAtFresh(n.dir, path[1..], hi); }
  }

  // ---------- walks only fill in what was missing ----------

  predicate LeafGrows(l: Leaf, l': Leaf) {
    l' == l.(diskId := l'.diskId) && (l.diskId.Some? ==> l'.diskId == l.diskId)
  }

  /** `d'` is `d` with disk ids and block reservations possibly added, none changed. */
  ghost predicate Grows(d: Dir, d': Dir) {
    && |d.children| == |d'.children| && d.meta == d'.meta
    && (d.diskId.Some? ==> d'.diskId == d.diskId)
    && (d.perBlock != [] ==> d'.startBlock == d.startBlock && d'.perBlock == d.perBlock && d'.totalSize == d.totalSize)
    && forall i :: 0 <= i < |d.children| ==>
         d'.children[i].name == d.children[i].name && NodeGrows(d.children[i].node, d'.children[i].node)
  }

  ghost predicate NodeGrows(n: Dirent, n': Dirent) {
    match n
    case File(l) => n'.File? && LeafGrows(l, n'.leaf)
    case Link(l) => n'.Link? && LeafGrows(l, n'.leaf)
    case SubDir(s) => n'.SubDir? && Grows(s, n'.dir)
    case Dot => n'.Dot?
    case DotDot => n'.DotDot?
  }

  lemma {:induction false} NodeGrowsTransitive(a: Dirent, b: Dirent, c: Dirent)
    requires NodeGrows(a, b) && NodeGrows(b, c)
    ensures NodeGrows(a, c)
    decreases a
  {
    if a.SubDir? {
      forall i | 0 <= i < |a.dir.children|
        ensures c.dir.children[i].name == a.dir.children[i].name
        ensures NodeGrows(a.dir.children[i].node, c.dir.children[i].node)
      {
        NodeGrowsTransitive(a.dir.children[i].node, b.dir.children[i].node, c.dir.children[i].node);
      }
    }
  }

  predicate SameNames(kids: seq<Child>, kids': seq<Child>) {
    |kids| == |kids'| && forall i :: 0 <= i < |kids| ==> kids'[i].name == kids[i].name
  }

  lemma {:induction false} SpanSameNames(kids: seq<Child>, kids': seq<Child>, lo: nat, hi: nat)
    requires SameNames(kids, kids') && lo <= hi <= |kids|
    ensures Span(kids, lo, hi) == Span(kids', lo, hi)
    decreases hi
  {
    if lo < hi { SpanSameNames(kids, kids', lo, hi - 1); }
  }

  lemma {:induction false} PacksSameNames(kids: seq<Child>, kids': seq<Child>, counts: seq<nat>, off: nat)
    requires SameNames(kids, kids') && Packs(kids, counts, off)
    ensures Packs(kids', counts, off)
    decreases |counts|
  {
    if counts != [] {
      var end := off + counts[0];
      SpanSameNames(kids, kids', off, end);
      if end < |kids| { SpanSameNames(kids, kids', off, end + 1); }
      PacksSameNames(kids, kids', counts[1..], end);
    }
  }

  lemma {:induction false} CountsGrow(d: Dir, d': Dir)
    requires Counts(d) && Grows(d, d')
    ensures Counts(d')
    decreases d
  {
    forall i | 0 <= i < |d'.children| && d'.children[i].node.SubDir? ensures Counts(d'.children[i].node.dir) {
      var n, n' := d.children[i].node, d'.children[i].node;
      assert NodeGrows(n, n');
      CountsGrow(n.dir, n'.dir);
    }
  }

  lemma {:induction false} PreparedGrows(d: Dir, d': Dir, at: nat)
    requires Prepared(d, at) && Grows(d, d')
    ensures Prepared(d', at)
  {
    PacksSameNames(d.children, d'.children, d.perBlock, 0);
    SpanSameNames(d.children, d'.children, |d.children| - d.perBlock[|d.perBlock| - 1], |d.children|);
  }

  /** Reservations survive the later walks. */
  lemma {:induction false} PlacedGrows(d: Dir, d': Dir, at: nat)
    requires Placed(d, at) && Grows(d, d')
    ensures Placed(d', at) && BlocksOf(d') == BlocksOf(d)
    decreases d, 1, 0
  {
    PreparedGrows(d, d', at);
    BlocksGrow(d, d', at, |d.children|);
    forall i | 0 <= i < |d'.children| ensures ChildPlaced(d', at, i) {
      assert NodeGrows(d.children[i].node, d'.children[i].node);
      if d.children[i].node.SubDir? {
        assert ChildPlaced(d, at, i);
        BlocksGrow(d, d', at, i);
        PlacedGrows(d.children[i].node.dir, d'.children[i].node.dir, ChildBlock(d, at, i));
      }
    }
  }

  lemma {:induction false} BlocksGrow(d: Dir, d': Dir, at: nat, i: nat)
    requires Placed(d, at) && Grows(d, d') && i <= |d.children|
    ensures BlocksBefore(d'.children, i) == BlocksBefore(d.children, i)
    decreases d, 0, i
  {
    if i > 0 {
      BlocksGrow(d, d', at, i - 1);
      assert NodeGrows(d.children[i - 1].node, d'.children[i - 1].node);
      if d.children[i - 1].node.SubDir? {
        assert ChildPlaced(d, at, i - 1);
        PlacedGrows(d.children[i - 1].node.dir, d'.children[i - 1].node.dir, ChildBlock(d, at, i - 1));
      }
    }
  }

  /** Directory inodes written by walk 2 still describe the tree after walk 3. */
  lemma {:induction false} DirInodesGrow(img: Bytes, mb: nat, d: Dir, d': Dir, lo: nat, hi: nat, at: nat)
    requires DirInodes(img, mb, d, lo, hi) && Grows(d, d') && Placed(d, at)
    ensures DirInodes(img, mb, d', lo, hi)
    decreases d
  {
    forall i | 0 <= i < |d'.children| && d'.children[i].node.SubDir?
      ensures DirInodes(img, mb, d'.children[i].node.dir, lo, hi)
    {
      assert NodeGrows(d.children[i].node, d'.children[i].node);
      assert ChildPlaced(d, at, i);
      DirInodesGrow(img, mb, d.children[i].node.dir, d'.children[i].node.dir, lo, hi, ChildBlock(d, at, i));
    }
  }

  // ---------- names ----------

  /** All names fit a dirent block and hold no zero byte. */
  ghost predicate LegalTree(d: Dir) {
    LegalKids(d.children) && forall i :: 0 <= i < |d.children| ==> NodeLegal(d.children[i].node)
  }

  ghost predicate NodeLegal(n: Dirent) {
    n.SubDir? ==> LegalTree(n.dir)
  }

  lemma {:induction false} LegalGrows(d: Dir, d': Dir)
    requires LegalTree(d) && Grows(d, d')
    ensures LegalTree(d')
    decreases d
  {
    forall i | 0 <= i < |d'.children| ensures NodeLegal(d'.children[i].node) && LegalName(d'.children[i].name) {
      var n, n' := d.children[i].node, d'.children[i].node;
      assert LegalName(d.children[i].name) && NodeLegal(n) && NodeGrows(n, n');
      if n.SubDir? { LegalGrows(n.dir, n'.dir); }
    }
  }

  /** Leaves without ids, and with `dirs` also directories. */
  ghost predicate NodeUnnumbered(n: Dirent, dirs: bool) {
    match n
    case File(l) => l.diskId.None?
    case Link(l) => l.diskId.None?
    case SubDir(s) => Unnumbered(s, dirs)
    case _ => true
  }

  ghost predicate Unnumbered(d: Dir, dirs: bool) {
    && (dirs ==> d.diskId.None?)
    && forall i :: 0 <= i < |d.children| ==> NodeUnnumbered(d.children[i].node, dirs)
  }
}
