/**
 What each walk of `write_inodes` (peerofs/src/build.rs) has achieved part of the way through
 a directory, and the step from one child to the next.
 */
module ErofsWalks {
  import opened Bytes
  import opened ErofsDisk
  import opened ErofsDirents
  import opened ErofsTree
  import opened ErofsXattr
  import opened ErofsPacking
  import opened ErofsImage
  import opened ErofsStages

  /** Where an inode record was written. */
  datatype Extent = Extent(addr: nat, len: nat)

  /** `zero_fill`: zeros needed after `written` bytes to reach the alignment. */
  function PadLen(written: nat, alignment: nat): (n: nat)
    requires alignment >= 1
    ensures n < alignment
  {
    if written % alignment == 0 then 0 else alignment - written % alignment
  }

  /** Records in [lo, hi), in increasing order, disjoint, aligned, none crossing a block boundary. */
  ghost predicate Stream(exts: seq<Extent>, lo: nat, hi: nat) {
    && (forall i :: 0 <= i < |exts| ==> InBlock(exts[i]) && lo <= exts[i].addr && exts[i].addr + exts[i].len <= hi)
    && (forall i, j :: 0 <= i < j < |exts| ==> exts[i].addr + exts[i].len <= exts[j].addr)
  }

  predicate InBlock(e: Extent) {
    e.addr % INODE_ALIGNMENT == 0 && 64 <= e.len <= BLOCK && e.addr / BLOCK == (e.addr + e.len - 1) / BLOCK
  }

  /** A stream of proper records from the meta block up to the aligned address `addr`. */
  ghost predicate StreamTo(exts: seq<Extent>, mb: nat, addr: nat) {
    addr % INODE_ALIGNMENT == 0 && BLOCK * mb <= addr && Stream(exts, BLOCK * mb, addr)
  }

  /** One record was added: it lies where `id` says, after everything written before. */
  ghost predicate Appended(img0: Bytes, img: Bytes, addr0: nat, addr: nat, mb: nat,
                           exts0: seq<Extent>, exts: seq<Extent>, id: nat, rec: Bytes)
  {
    && StreamTo(exts, mb, addr) && addr0 <= addr <= |img|
    && RecordAt(img, mb, Some(id), rec, addr0, addr)
    && exts == exts0 + [Extent(InodeAddr(mb, id), |rec|)]
    && Kept(img0, img, addr0, addr)
  }

  lemma AppendedBy(img0: Bytes, mid: Bytes, img: Bytes, addr0: nat, start: nat, addr: nat, mb: nat,
                   exts0: seq<Extent>, id: nat, rec: Bytes)
    requires StreamTo(exts0, mb, addr0) && addr0 <= start == InodeAddr(mb, id) && id < 0x1_0000_0000
    requires InBlock(Extent(start, |rec|)) && addr == start + |rec| + PadLen(|rec|, INODE_ALIGNMENT) <= |img|
    requires Kept(img0, mid, addr0, start) && Kept(mid, img, start, addr) && Has(img, start, rec)
    ensures Appended(img0, img, addr0, addr, mb, exts0, exts0 + [Extent(start, |rec|)], id, rec)
  {
    KeptTransitive(img0, mid, img, addr0, start, addr);
    StreamSnoc(exts0, Extent(start, |rec|), BLOCK * mb, addr0, addr);
    AlignedAfter(start, |rec|);
  }

  lemma StreamSnoc(exts: seq<Extent>, e: Extent, lo: nat, mid: nat, hi: nat)
    requires Stream(exts, lo, mid) && lo <= mid <= e.addr && e.addr + e.len <= hi && InBlock(e)
    ensures Stream(exts + [e], lo, hi)
  {
  }

  lemma {:induction false} EntriesSnoc(xs: seq<Stored>, x: Stored)
    ensures EntriesBytes(xs + [x]) == EntriesBytes(xs) + EntryBytes(x)
  {
    hide EntryBytes, EntriesBytes;
    var all := xs + [x];
    EntriesStep(all);
    if xs == [] {
      assert all[0] == x && all[1..] == xs;
      NoEntryBytes(xs);
    } else {
      EntriesSnoc(xs[1..], x);
      assert all[0] == xs[0] && all[1..] == xs[1..] + [x];
      EntriesStep(xs);
    }
  }

  lemma NoEntryBytes(xs: seq<Stored>)
    requires xs == []
    ensures EntriesBytes(xs) == []
  {
  }

  /** The directory ".." names: the last on the parent stack, or the root itself. */
  function ParentOf(parents: seq<nat>, self: nat): nat {
    if parents == [] then self else parents[|parents| - 1]
  }

  ghost predicate KidsWritable(d: Dir)
    requires d.diskId.Some?
  {
    forall i :: 0 <= i < |d.children| ==> ChildWritable(d, i)
  }

  ghost predicate KidListed(img: Bytes, d: Dir, k: nat)
    requires k < |d.children| && d.diskId.Some?
  {
    d.children[k].node.SubDir? ==> DirentsWritten(img, d.children[k].node.dir, d.diskId.value)
  }

  /** The first `i` children of the directory have their dirents written. */
  ghost predicate KidsListed(img: Bytes, d: Dir, i: nat)
    requires d.diskId.Some?
  {
    i <= |d.children| && forall k :: 0 <= k < i ==> KidListed(img, d, k)
  }

  lemma ChildReady(d: Dir, at: nat, i: nat)
    requires i < |d.children| && d.children[i].node.SubDir? && d.diskId.Some? && Placed(d, at) && KidsWritable(d)
    ensures var s := d.children[i].node.dir;
      && s.diskId.Some? && Placed(s, ChildBlock(d, at, i)) && AllWritable(s, d.diskId.value)
      && ChildBlock(d, at, i) + BlocksOf(s) == ChildBlock(d, at, i + 1) <= at + BlocksOf(d)
  {
    assert ChildPlaced(d, at, i) && ChildWritable(d, i);
    ChildRange(d, at, i);
    WritableTop(d.children[i].node.dir, d.diskId.value);
  }

  lemma WritableTop(d: Dir, parent: nat)
    requires AllWritable(d, parent)
    ensures Writable(d, parent)
  {
  }

  lemma KidsListedStep(a: Bytes, b: Bytes, d: Dir, at: nat, i: nat)
    requires i < |d.children| && d.diskId.Some? && Placed(d, at) && KidsListed(a, d, i) && KidListed(b, d, i)
    requires Kept(a, b, BLOCK * ChildBlock(d, at, i), BLOCK * ChildBlock(d, at, i + 1))
    ensures KidsListed(b, d, i + 1)
    ensures at + |d.perBlock| <= ChildBlock(d, at, i) <= ChildBlock(d, at, i + 1) <= at + BlocksOf(d)
  {
    BlocksBeforeMonotone(d.children, i + 1, |d.children|);
    forall k | 0 <= k < i + 1 ensures KidListed(b, d, k) {
      if k < i && d.children[k].node.SubDir? {
        assert ChildPlaced(d, at, k) && KidListed(a, d, k);
        ChildRange(d, at, k);
        BlocksBeforeMonotone(d.children, k + 1, i);
        DirentsKept(a, b, BLOCK * ChildBlock(d, at, i), BLOCK * ChildBlock(d, at, i + 1),
                    d.children[k].node.dir, ChildBlock(d, at, k), d.diskId.value);
      }
    }
  }

  lemma DirentsTree(a: Bytes, b: Bytes, d: Dir, at: nat, parent: nat)
    requires Prepared(d, at) && DirentsAt(a, d, parent) && KidsListed(b, d, |d.children|)
    requires Kept(a, b, BLOCK * (at + |d.perBlock|), BLOCK * (at + BlocksOf(d)))
    ensures DirentsWritten(b, d, parent)
  {
    KeptHas(a, b, BLOCK * (at + |d.perBlock|), BLOCK * (at + BlocksOf(d)), BLOCK * at, Blocks(DirGroups(d, parent)));
    forall i | 0 <= i < |d.children| && d.children[i].node.SubDir?
      ensures DirentsWritten(b, d.children[i].node.dir, d.diskId.value)
    {
      assert KidListed(b, d, i);
    }
  }

  lemma NextGroup(d: Dir, parent: nat, k: nat)
    requires Writable(d, parent) && k < |d.perBlock|
    ensures var lo := Sum(d.perBlock[..k]); var count := d.perBlock[k];
      && count >= 1 && lo + count <= |d.children| && Sum(d.perBlock[..k + 1]) == lo + count
      && DirGroups(d, parent)[k] == Items(d.children, lo, lo + count, d.diskId.value, parent)
  {
    PacksAt(d.children, d.perBlock, 0, k);
    ItemGroupAt(d.children, d.perBlock, 0, d.diskId.value, parent, k);
    assert d.perBlock[..k + 1][..k] == d.perBlock[..k];
  }

  /** The first `k` blocks of a directory. */
  function BlocksTo(groups: seq<seq<DirentItem>>, k: nat): (r: Bytes)
    requires GroupsOk(groups) && k <= |groups|
    ensures |r| == BLOCK * k
  {
    if k == 0 then [] else BlocksTo(groups, k - 1) + Block(groups[k - 1])
  }

  lemma {:induction false} BlocksSplit(groups: seq<seq<DirentItem>>, k: nat)
    requires GroupsOk(groups) && k <= |groups|
    ensures Blocks(groups) == BlocksTo(groups, k) + Blocks(groups[k..])
    decreases k
  {
    hide Block, GroupOk;
    if k == 0 {
      assert groups[0..] == groups;
    } else {
      BlocksSplit(groups, k - 1);
      assert groups[k - 1..][1..] == groups[k..];
    }
  }

  lemma AllBlocks(groups: seq<seq<DirentItem>>)
    requires GroupsOk(groups)
    ensures BlocksTo(groups, |groups|) == Blocks(groups)
  {
    BlocksSplit(groups, |groups|);
  }

  /** The first `j` headers of the group starting at `kids[lo]`, names from offset `base` on. */
  function HeadersTo(kids: seq<Child>, lo: nat, j: nat, base: nat, self: nat, parent: nat): (r: Bytes)
    requires lo + j <= |kids|
    ensures |r| == DIRENT_SIZE * j
  {
    if j == 0 then []
    else HeadersTo(kids, lo, j - 1, base, self, parent)
         + Header(ItemOf(kids[lo + j - 1], self, parent), base + |NamesTo(kids, lo, j - 1)|)
  }

  function NamesTo(kids: seq<Child>, lo: nat, j: nat): Bytes
    requires lo + j <= |kids|
  {
    if j == 0 then [] else NamesTo(kids, lo, j - 1) + kids[lo + j - 1].name
  }

  lemma {:induction false} HeadersOfItems(kids: seq<Child>, lo: nat, j: nat, base: nat, self: nat, parent: nat)
    requires lo + j <= |kids|
    ensures var items := Items(kids, lo, lo + j, self, parent);
            HeadersTo(kids, lo, j, base, self, parent) == Headers(items, base) && NamesTo(kids, lo, j) == Names(items)
  {
    hide Items, Header, Headers, Names, NamesLen, NodeId, TypeCode;
    var items := Items(kids, lo, lo + j, self, parent);
    if j > 0 {
      HeadersOfItems(kids, lo, j - 1, base, self, parent);
      assert items[..j - 1] == Items(kids, lo, lo + j - 1, self, parent);
      LastHeader(items, base);
    } else {
      assert items == [];
      NoHeader(base);
    }
  }

  lemma LastHeader(items: seq<DirentItem>, base: nat)
    requires items != []
    ensures var n := |items| - 1; var front := items[..n];
      && Headers(items, base) == Headers(front, base) + Header(items[n], base + |Names(front)|)
      && Names(items) == Names(front) + items[n].name
  {
    hide Header;
  }

  lemma NoHeader(base: nat)
    ensures Headers([], base) == [] && Names([]) == []
  {
  }

  /** A child after walk 3. */
  ghost predicate NodeFiled(good: bool, img: Bytes, mb: nat, n0: Dirent, n: Dirent, lo: nat, hi: nat) {
    NodeGrows(n0, n) && (good ==> NodeLeafInodes(img, mb, n, lo, hi))
  }

  ghost predicate KidFiled(good: bool, img: Bytes, mb: nat, kids0: seq<Child>, kids: seq<Child>, k: nat, lo: nat,
                           hi: nat)
    requires k < |kids| == |kids0|
  {
    kids[k].name == kids0[k].name && NodeFiled(good, img, mb, kids0[k].node, kids[k].node, lo, hi)
  }

  ghost predicate KidsFiled(good: bool, img: Bytes, mb: nat, kids0: seq<Child>, kids: seq<Child>,
                            i: nat, lo: nat, hi: nat)
  {
    && i <= |kids| == |kids0|
    && (forall k :: 0 <= k < i ==> KidFiled(good, img, mb, kids0, kids, k, lo, hi))
    && (forall k :: i <= k < |kids| ==> kids[k] == kids0[k])
  }

  lemma KidsFiledStep(good: bool, a: Bytes, b: Bytes, mb: nat, kids0: seq<Child>, prev: seq<Child>, n: Dirent,
                      i: nat, lo: nat, mid: nat, hi: nat)
    requires i < |prev| && KidsFiled(good, a, mb, kids0, prev, i, lo, mid) && (good ==> lo <= mid)
    requires (good ==> Advanced(a, b, mid, hi)) && NodeFiled(good, b, mb, kids0[i].node, n, mid, hi)
    ensures KidsFiled(good, b, mb, kids0, prev[i := Child(kids0[i].name, n)], i + 1, lo, hi)
  {
    var kids := prev[i := Child(kids0[i].name, n)];
    forall k | 0 <= k < i + 1 ensures KidFiled(good, b, mb, kids0, kids, k, lo, hi) {
      if k < i {
        assert KidFiled(good, a, mb, kids0, prev, k, lo, mid);
        if good { NodeLeafInodesKept(a, b, mid, hi, mb, kids[k].node, lo, mid, lo, hi); }
      } else if good {
        NodeLeafInodesKept(b, b, 0, 0, mb, n, mid, hi, lo, hi);
      }
    }
  }

  lemma FiledTree(good: bool, img: Bytes, mb: nat, d: Dir, kids: seq<Child>, lo: nat, hi: nat)
    requires |kids| == |d.children| && KidsFiled(good, img, mb, d.children, kids, |d.children|, lo, hi)
    ensures Grows(d, d.(children := kids)) && (good ==> LeafInodes(img, mb, d.(children := kids), lo, hi))
  {
    forall i | 0 <= i < |kids|
      ensures kids[i].name == d.children[i].name && NodeGrows(d.children[i].node, kids[i].node)
      ensures good ==> NodeLeafInodes(img, mb, kids[i].node, lo, hi)
    {
      assert KidFiled(good, img, mb, d.children, kids, i, lo, hi);
    }
  }

  /** The inode stream moved on, and nothing outside it changed. */
  ghost predicate Advanced(img0: Bytes, img: Bytes, addr0: nat, addr: nat) {
    addr0 <= addr && Kept(img0, img, addr0, addr)
  }

  lemma CheckedRecord(xattrs: seq<Xattr>, tail: Option<Bytes>)
    requires RecordSize(StoreAll(xattrs), tail).Ok?
    ensures EntriesOk(StoreAll(xattrs)) && XattrCount(StoreAll(xattrs)) < 0x1_0000
  {
    NoErrorMeansOk(StoreAll(xattrs));
  }

  ghost predicate KidsPending(kids: seq<Child>, dirs: bool) {
    forall i :: 0 <= i < |kids| ==> NodeUnnumbered(kids[i].node, dirs)
  }

  /** A directory after walk 2: it and every directory below has an id and, if all is well, an inode in [lo, hi). */
  ghost predicate DirNumbered(good: bool, img: Bytes, mb: nat, d0: Dir, d: Dir, lo: nat, hi: nat) {
    Grows(d0, d) && Unnumbered(d, false) && (good ==> DirInodes(img, mb, d, lo, hi))
  }

  ghost predicate NodeNumbered(good: bool, img: Bytes, mb: nat, n0: Dirent, n: Dirent, lo: nat, hi: nat) {
    NodeGrows(n0, n) && NodeUnnumbered(n, false) && (good && n.SubDir? ==> DirInodes(img, mb, n.dir, lo, hi))
  }

  ghost predicate KidNumbered(good: bool, img: Bytes, mb: nat, kids0: seq<Child>, kids: seq<Child>,
                              k: nat, lo: nat, hi: nat)
    requires k < |kids| == |kids0|
  {
    kids[k].name == kids0[k].name && NodeNumbered(good, img, mb, kids0[k].node, kids[k].node, lo, hi)
  }

  ghost predicate KidsNumbered(good: bool, img: Bytes, mb: nat, kids0: seq<Child>, kids: seq<Child>,
                               i: nat, lo: nat, hi: nat)
  {
    && i <= |kids| == |kids0|
    && (forall k :: 0 <= k < i ==> KidNumbered(good, img, mb, kids0, kids, k, lo, hi))
    && (forall k :: i <= k < |kids| ==> kids[k] == kids0[k])
  }

  lemma KidsNumberedStep(good: bool, a: Bytes, b: Bytes, mb: nat, kids0: seq<Child>, prev: seq<Child>, n: Dirent,
                         i: nat, lo: nat, mid: nat, hi: nat)
    requires i < |prev| && KidsNumbered(good, a, mb, kids0, prev, i, lo, mid) && (good ==> lo <= mid)
    requires (good ==> Advanced(a, b, mid, hi)) && NodeNumbered(good, b, mb, kids0[i].node, n, mid, hi)
    ensures KidsNumbered(good, b, mb, kids0, prev[i := Child(kids0[i].name, n)], i + 1, lo, hi)
  {
    var kids := prev[i := Child(kids0[i].name, n)];
    forall k | 0 <= k < i + 1 ensures KidNumbered(good, b, mb, kids0, kids, k, lo, hi) {
      if k < i {
        assert KidNumbered(good, a, mb, kids0, prev, k, lo, mid);
        if good && kids[k].node.SubDir? { DirInodesKept(a, b, mid, hi, mb, kids[k].node.dir, lo, mid, lo, hi); }
      } else if good && n.SubDir? {
        DirInodesKept(b, b, 0, 0, mb, n.dir, mid, hi, lo, hi);
      }
    }
  }

  lemma NumberedTree(good: bool, a: Bytes, b: Bytes, mb: nat, d: Dir, id: nat, kids: seq<Child>,
                     lo: nat, mid: nat, hi: nat)
    requires d.diskId.None?
    requires good ==> lo <= mid && DirRecordAt(a, mb, d.(diskId := Some(id)), lo, mid) && Advanced(a, b, mid, hi)
    requires |kids| == |d.children| && KidsNumbered(good, b, mb, d.children, kids, |d.children|, mid, hi)
    ensures DirNumbered(good, b, mb, d, d.(diskId := Some(id), children := kids), lo, hi)
  {
    var r := d.(diskId := Some(id), children := kids);
    if good {
      var rec := Record(DirInode(d).value, StoreAll(d.meta.xattrs), None);
      RecordKept(a, b, mid, hi, mb, Some(id), rec, lo, mid, lo, hi);
    }
    forall i | 0 <= i < |kids|
      ensures kids[i].name == d.children[i].name && NodeGrows(d.children[i].node, kids[i].node)
      ensures NodeUnnumbered(kids[i].node, false)
      ensures good && kids[i].node.SubDir? ==> DirInodes(b, mb, kids[i].node.dir, lo, hi)
    {
      assert KidNumbered(good, b, mb, d.children, kids, i, mid, hi);
      if good && kids[i].node.SubDir? { DirInodesKept(b, b, 0, 0, mb, kids[i].node.dir, mid, hi, lo, hi); }
    }
  }

  ghost predicate KidReady(good: bool, kids: seq<Child>, i: nat, hi: nat)
    requires i < |kids|
  {
    NodeFresh(kids[i].node, hi) && (good ==> NodeLegal(kids[i].node))
  }

  ghost predicate KidsReady(good: bool, kids: seq<Child>, hi: nat) {
    forall i :: 0 <= i < |kids| ==> KidReady(good, kids, i, hi)
  }

  /** A directory after walk 1: blocks counted and, if all is well, in place. */
  ghost predicate DirPrepared(good: bool, d0: Dir, d: Dir, at: nat) {
    Grows(d0, d) && Unnumbered(d, true) && Counts(d) && (good ==> Placed(d, at))
  }

  ghost predicate NodePrepared(good: bool, n0: Dirent, n: Dirent, at: nat) {
    && NodeGrows(n0, n) && NodeUnnumbered(n, true)
    && (n.SubDir? ==> Counts(n.dir) && (good ==> Placed(n.dir, at)))
  }

  /** The first `i` children are done, with blocks from `from` on; the others are as before. */
  ghost predicate KidsPrepared(good: bool, kids0: seq<Child>, kids: seq<Child>, i: nat, from: nat) {
    && i <= |kids| == |kids0|
    && (forall k :: 0 <= k < i ==> KidPrepared(good, kids0, kids, k, from))
    && (forall k :: i <= k < |kids| ==> kids[k] == kids0[k])
  }

  ghost predicate KidPrepared(good: bool, kids0: seq<Child>, kids: seq<Child>, k: nat, from: nat)
    requires k < |kids| == |kids0|
  {
    && kids[k].name == kids0[k].name
    && NodePrepared(good, kids0[k].node, kids[k].node, from + BlocksBefore(kids, k))
  }

  lemma KidsPreparedStep(good: bool, kids0: seq<Child>, prev: seq<Child>, n: Dirent, i: nat, from: nat)
    requires i < |prev| && KidsPrepared(good, kids0, prev, i, from)
    requires NodePrepared(good, kids0[i].node, n, from + BlocksBefore(prev, i))
    ensures KidsPrepared(good, kids0, prev[i := Child(kids0[i].name, n)], i + 1, from)
    ensures BlocksBefore(prev[i := Child(kids0[i].name, n)], i + 1)
            == BlocksBefore(prev, i) + (if n.SubDir? then BlocksOf(n.dir) else 0)
  {
    var kids := prev[i := Child(kids0[i].name, n)];
    BlocksBeforePrefix(prev, kids, i);
    forall k | 0 <= k < i + 1 ensures KidPrepared(good, kids0, kids, k, from) {
      assert k < i ==> KidPrepared(good, kids0, prev, k, from);
      BlocksBeforePrefix(prev, kids, k);
    }
  }

  lemma LegalFits(kids: seq<Child>)
    requires LegalKids(kids)
    ensures NamesFit(kids)
  {
    forall i | 0 <= i < |kids| ensures DIRENT_SIZE + |kids[i].name| <= BLOCK {
      assert LegalName(kids[i].name);
    }
  }

  lemma {:induction false} BlocksBeforePrefix(kids: seq<Child>, kids': seq<Child>, i: nat)
    requires i <= |kids| == |kids'| && forall k :: 0 <= k < i ==> kids[k] == kids'[k]
    ensures BlocksBefore(kids, i) == BlocksBefore(kids', i)
    decreases i
  {
    if i > 0 { BlocksBeforePrefix(kids, kids', i - 1); }
  }

  lemma PreparedTree(good: bool, d: Dir, dir: Dir, kids: seq<Child>, at: nat, from: nat)
    requires d.perBlock == [] && d.diskId.None? && dir.perBlock != [] && Sum(dir.perBlock) == |d.children|
    requires (good ==> Prepared(dir, at)) && from == at + |dir.perBlock|
    requires dir == d.(startBlock := dir.startBlock, perBlock := dir.perBlock, totalSize := dir.totalSize)
    requires |kids| == |d.children| && KidsPrepared(good, d.children, kids, |d.children|, from)
    ensures DirPrepared(good, d, dir.(children := kids), at)
  {
    var r := dir.(children := kids);
    forall i | 0 <= i < |kids|
      ensures kids[i].name == d.children[i].name && NodeGrows(d.children[i].node, kids[i].node)
      ensures NodeUnnumbered(kids[i].node, true) && (kids[i].node.SubDir? ==> Counts(kids[i].node.dir))
      ensures good ==> ChildPlaced(r, at, i)
    {
      assert KidPrepared(good, d.children, kids, i, from);
    }
    if good {
      PacksSameNames(d.children, kids, dir.perBlock, 0);
      SpanSameNames(d.children, kids, |kids| - dir.perBlock[|dir.perBlock| - 1], |kids|);
    }
  }

  lemma BlockAligned(b: nat)
    ensures b * BLOCK % INODE_ALIGNMENT == 0 && b * BLOCK % BLOCK == 0 && BLOCK * b == b * BLOCK
  {
    assert b * BLOCK == INODE_ALIGNMENT * (b * 128);
  }

  lemma AlignedAfter(start: nat, total: nat)
    requires start % INODE_ALIGNMENT == 0
    ensures (start + total + PadLen(total, INODE_ALIGNMENT)) % INODE_ALIGNMENT == 0
  {
  }

  /** The checks of `write_inode`, and the length of the record that passes them. */
  function RecordSize(xs: seq<Stored>, tail: Option<Bytes>): (r: Result<nat, BuildError>)
    ensures r.Ok? ==> 64 <= r.value == RecordLen(xs, tail) <= BLOCK
  {
    if EntriesError(xs).Some? then Err(EntriesError(xs).value)
    else if XattrCount(xs) >= 0x1_0000 then Err(TooManyXattrs)
    else if RecordLen(xs, tail) > BLOCK then Err(BuildError.InodeTooBig)
    else Ok(RecordLen(xs, tail))
  }

  lemma {:induction false} NoErrorMeansOk(xs: seq<Stored>)
    requires EntriesError(xs).None? && forall i :: 0 <= i < |xs| ==> 1 <= xs[i].prefix <= 5
    ensures EntriesOk(xs)
  {
    if xs != [] { NoErrorMeansOk(xs[1..]); }
  }
}
