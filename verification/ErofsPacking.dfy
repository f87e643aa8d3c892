/**
 `Dir::prepare_dirent_data` and `size_tail_len` (peerofs/src/build.rs): how entries are
 grouped into blocks and how file bytes are split into blocks and a tail.
 */
module ErofsPacking {
  import opened Bytes
  import opened ErofsDisk
  import opened ErofsDirents
  import opened ErofsTree

  // ---------- file sizes ----------

  /** Number of blocks, bytes stored in blocks, bytes stored in the tail. */
  function SizeTailLen(len: nat): (r: (nat, nat, nat))
    ensures r.1 + r.2 == len
    ensures r.1 <= BLOCK * r.0 < r.1 + BLOCK / 2
    ensures r.1 == 0 <==> r.0 == 0
    ensures r.2 <= BLOCK / 2
    ensures r.2 > 0 ==> r.1 == BLOCK * (len / BLOCK) && r.2 == len % BLOCK
  {
    var nBlocks, tailLen := len / BLOCK, len % BLOCK;
    if tailLen > BLOCK / 2 then (nBlocks + 1, len, 0) else (nBlocks, nBlocks * BLOCK, tailLen)
  }

  // ---------- grouping entries into blocks ----------

  /** Bytes that the entries `kids[lo..hi]` take: headers and names. */
  function Span(kids: seq<Child>, lo: nat, hi: nat): nat
    requires lo <= hi <= |kids|
    decreases hi
  {
    if lo == hi then 0 else Span(kids, lo, hi - 1) + DIRENT_SIZE + |kids[hi - 1].name|
  }

  function Sum(counts: seq<nat>): nat {
    if counts == [] then 0 else Sum(counts[..|counts| - 1]) + counts[|counts| - 1]
  }

  predicate NamesFit(kids: seq<Child>) {
    forall i :: 0 <= i < |kids| ==> DIRENT_SIZE + |kids[i].name| <= BLOCK
  }

  /** `kids[lo..hi]` fits a block, and would not with the entry after it. */
  predicate FullGroup(kids: seq<Child>, lo: nat, hi: nat)
    requires lo <= hi <= |kids|
  {
    Span(kids, lo, hi) <= BLOCK && (hi < |kids| ==> Span(kids, lo, hi + 1) > BLOCK)
  }

  /**
   The counts cut `kids[off..]` into nonempty groups that fit a block, each as long as
   possible: a group together with the entry after it does not fit.
   */
  predicate Packs(kids: seq<Child>, counts: seq<nat>, off: nat)
    decreases |counts|
  {
    if counts == [] then off <= |kids|
    else
      var end := off + counts[0];
      && counts[0] >= 1 && end <= |kids|
      && FullGroup(kids, off, end)
      && Packs(kids, counts[1..], end)
  }

  predicate Packing(kids: seq<Child>, counts: seq<nat>) {
    Packs(kids, counts, 0) && Sum(counts) == |kids|
  }

  lemma {:induction false} SumFront(counts: seq<nat>)
    requires counts != []
    ensures Sum(counts) == counts[0] + Sum(counts[1..])
  {
    if |counts| > 1 {
      var n := |counts| - 1;
      assert counts[..n][1..] == counts[1..][..n - 1];
      SumFront(counts[..n]);
    }
  }

  lemma {:induction false} PacksSnoc(kids: seq<Child>, counts: seq<nat>, off: nat, c: nat)
    requires Packs(kids, counts, off) && c >= 1 && off + Sum(counts) + c <= |kids|
    requires FullGroup(kids, off + Sum(counts), off + Sum(counts) + c)
    ensures Packs(kids, counts + [c], off)
    decreases |counts|
  {
    if counts != [] {
      SumFront(counts);
      PacksSnoc(kids, counts[1..], off + counts[0], c);
      assert (counts + [c])[1..] == counts[1..] + [c];
    }
  }

  lemma {:induction false} SpanCovers(kids: seq<Child>, lo: nat, hi: nat, i: nat)
    requires lo <= i < hi <= |kids|
    ensures Span(kids, lo, hi) >= DIRENT_SIZE + |kids[i].name|
    decreases hi
  {
    if i < hi - 1 { SpanCovers(kids, lo, hi - 1, i); }
  }

  lemma {:induction false} PacksFit(kids: seq<Child>, counts: seq<nat>, off: nat, i: nat)
    requires Packs(kids, counts, off) && off <= i < off + Sum(counts) <= |kids|
    ensures DIRENT_SIZE + |kids[i].name| <= BLOCK
    decreases |counts|
  {
    if counts != [] {
      SumFront(counts);
      var end := off + counts[0];
      if i < end {
        SpanCovers(kids, off, end, i);
      } else {
        PacksFit(kids, counts[1..], end, i);
      }
    }
  }

  /** A packing exists only if every name fits a block beside its header. */
  lemma PackingNeedsFit(kids: seq<Child>, counts: seq<nat>)
    requires Packing(kids, counts)
    ensures NamesFit(kids)
  {
    forall i | 0 <= i < |kids| ensures DIRENT_SIZE + |kids[i].name| <= BLOCK {
      PacksFit(kids, counts, 0, i);
    }
  }

  lemma {:induction false} SpanMonotone(kids: seq<Child>, lo: nat, i: nat, j: nat)
    requires lo <= i <= j <= |kids|
    ensures Span(kids, lo, i) <= Span(kids, lo, j)
    decreases j
  {
    if i < j { SpanMonotone(kids, lo, i, j - 1); }
  }

  lemma {:induction false} PacksUnique(kids: seq<Child>, a: seq<nat>, b: seq<nat>, off: nat)
    requires Packs(kids, a, off) && Packs(kids, b, off)
    requires off + Sum(a) == |kids| == off + Sum(b)
    ensures a == b
    decreases |a|
  {
    if a != [] { SumFront(a); }
    if b != [] { SumFront(b); }
    if a != [] && b != [] {
      if a[0] < b[0] {
        SpanMonotone(kids, off, off + a[0] + 1, off + b[0]);
      } else if b[0] < a[0] {
        SpanMonotone(kids, off, off + b[0] + 1, off + a[0]);
      }
      PacksUnique(kids, a[1..], b[1..], off + a[0]);
      assert a == [a[0]] + a[1..] && b == [b[0]] + b[1..];
    }
  }

  /** There is at most one packing: filling every block as far as it goes determines it. */
  lemma PackingUnique(kids: seq<Child>, a: seq<nat>, b: seq<nat>)
    requires Packing(kids, a) && Packing(kids, b)
    ensures a == b
  {
    PacksUnique(kids, a, b, 0);
  }

  /** The first field of the result is what `n_dirents_per_block` becomes, the second `total_size`. */
  method PrepareDirentData(kids: seq<Child>) returns (perBlock: seq<nat>, totalSize: nat)
    ensures Sum(perBlock) == |kids|
    ensures Packing(kids, perBlock) <==> NamesFit(kids)
    ensures kids != [] ==>
              && perBlock != [] && perBlock[|perBlock| - 1] <= |kids|
              && totalSize == BLOCK * (|perBlock| - 1) + Span(kids, |kids| - perBlock[|perBlock| - 1], |kids|)
  {
    perBlock := [];
    var len, count := 0, 0;
    ghost var start := 0;
    ghost var fit := NamesFit(kids);
    for i := 0 to |kids|
      invariant 0 <= start <= i && count == i - start && len == Span(kids, start, i)
      invariant Sum(perBlock) == start && (i > 0 ==> count > 0)
      invariant fit ==> Packs(kids, perBlock, 0) && len <= BLOCK
    {
      var nameStart := len + DIRENT_SIZE;
      var additional := DIRENT_SIZE + |kids[i].name|;
      if len + additional > BLOCK || nameStart > 0xffff {
        if fit { PacksSnoc(kids, perBlock, 0, count); }
        perBlock, count, len := perBlock + [count], 1, additional;
        start := i;
      } else {
        count, len := count + 1, len + additional;
      }
    }
    totalSize := BLOCK * |perBlock|;
    if count != 0 {
      if fit { PacksSnoc(kids, perBlock, 0, count); }
      perBlock := perBlock + [count];
      totalSize := totalSize + len;
    }
    if Packing(kids, perBlock) { PackingNeedsFit(kids, perBlock); }
  }

  // ---------- entries as dirent items ----------

  function IdOrZero(id: Option<nat>): nat {
    if id.Some? then id.value else 0
  }

  /** The disk id an entry of a directory names: its own for ".", its parent's for "..". */
  function NodeId(n: Dirent, self: nat, parent: nat): nat {
    match n
    case File(l) => IdOrZero(l.diskId)
    case Link(l) => IdOrZero(l.diskId)
    case SubDir(d) => IdOrZero(d.diskId)
    case Dot => self
    case DotDot => parent
  }

  /** The same as the writer looks it up, with nothing where an id is missing. */
  function ChildId(n: Dirent, self: Option<nat>, parent: Option<nat>): (id: Option<nat>)
    ensures id.Some? ==> id.value == NodeId(n, IdOrZero(self), IdOrZero(parent))
  {
    match n
    case File(l) => l.diskId
    case Link(l) => l.diskId
    case SubDir(d) => d.diskId
    case Dot => self
    case DotDot => parent
  }

  /** `Dirent::file_type` */
  function TypeCode(n: Dirent): nat {
    match n
    case File(_) => 1
    case Link(_) => 7
    case _ => 2
  }

  function ItemOf(c: Child, self: nat, parent: nat): DirentItem {
    DirentItem(NodeId(c.node, self, parent), TypeCode(c.node), c.name)
  }

  function Items(kids: seq<Child>, lo: nat, hi: nat, self: nat, parent: nat): (r: seq<DirentItem>)
    requires lo <= hi <= |kids|
    ensures |r| == hi - lo
    ensures forall i :: 0 <= i < hi - lo ==> r[i] == ItemOf(kids[lo + i], self, parent)
    decreases hi
  {
    if lo == hi then [] else Items(kids, lo, hi - 1, self, parent) + [ItemOf(kids[hi - 1], self, parent)]
  }

  predicate LegalKids(kids: seq<Child>) {
    forall i :: 0 <= i < |kids| ==> LegalName(kids[i].name)
  }

  predicate IdsFit(kids: seq<Child>, self: nat, parent: nat) {
    && self < 0x1_0000_0000 && parent < 0x1_0000_0000
    && forall i :: 0 <= i < |kids| ==>
         ChildId(kids[i].node, Some(self), Some(parent)).Some? && NodeId(kids[i].node, self, parent) < 0x1_0000_0000
  }

  function ItemGroups(kids: seq<Child>, counts: seq<nat>, off: nat, self: nat, parent: nat): (r: seq<seq<DirentItem>>)
    requires Packs(kids, counts, off)
    ensures |r| == |counts|
    decreases |counts|
  {
    if counts == [] then []
    else
      var end := off + counts[0];
      [Items(kids, off, end, self, parent)] + ItemGroups(kids, counts[1..], end, self, parent)
  }

  lemma {:induction false} ItemsLen(kids: seq<Child>, lo: nat, hi: nat, self: nat, parent: nat)
    requires lo <= hi <= |kids|
    ensures BodyLen(Items(kids, lo, hi, self, parent)) == Span(kids, lo, hi)
    decreases hi
  {
    if lo < hi {
      ItemsLen(kids, lo, hi - 1, self, parent);
      var items := Items(kids, lo, hi, self, parent);
      assert items[..hi - 1 - lo] == Items(kids, lo, hi - 1, self, parent);
    }
  }

  lemma {:induction false} ItemGroupsOk(kids: seq<Child>, counts: seq<nat>, off: nat, self: nat, parent: nat)
    requires Packs(kids, counts, off) && LegalKids(kids) && IdsFit(kids, self, parent)
    ensures GroupsOk(ItemGroups(kids, counts, off, self, parent))
    decreases |counts|
  {
    if counts != [] {
      var end := off + counts[0];
      ItemsLen(kids, off, end, self, parent);
      assert GroupOk(Items(kids, off, end, self, parent));
      ItemGroupsOk(kids, counts[1..], end, self, parent);
    }
  }

  lemma ItemsJoin(kids: seq<Child>, lo: nat, mid: nat, hi: nat, self: nat, parent: nat)
    requires lo <= mid <= hi <= |kids|
    ensures Items(kids, lo, mid, self, parent) + Items(kids, mid, hi, self, parent) == Items(kids, lo, hi, self, parent)
  {
  }

  lemma ConcatFront(g: seq<DirentItem>, rest: seq<seq<DirentItem>>)
    ensures Concat([g] + rest) == g + Concat(rest)
  {
    assert ([g] + rest)[1..] == rest;
  }

  lemma {:induction false} ItemGroupsConcat(kids: seq<Child>, counts: seq<nat>, off: nat, self: nat, parent: nat)
    requires Packs(kids, counts, off) && off + Sum(counts) <= |kids|
    ensures Concat(ItemGroups(kids, counts, off, self, parent)) == Items(kids, off, off + Sum(counts), self, parent)
    decreases |counts|
  {
    if counts != [] {
      SumFront(counts);
      var end, hi := off + counts[0], off + Sum(counts);
      var g, rest := Items(kids, off, end, self, parent), ItemGroups(kids, counts[1..], end, self, parent);
      assert Concat(rest) == Items(kids, end, hi, self, parent) by {
        ItemGroupsConcat(kids, counts[1..], end, self, parent);
      }
      ConcatFront(g, rest);
      ItemsJoin(kids, off, end, hi, self, parent);
    }
  }

  /** Group `k` starts after the entries of the groups before it. */
  lemma {:induction false} PacksAt(kids: seq<Child>, counts: seq<nat>, off: nat, k: nat)
    requires Packs(kids, counts, off) && k < |counts|
    ensures counts[k] >= 1 && off + Sum(counts[..k]) + counts[k] <= |kids|
    ensures FullGroup(kids, off + Sum(counts[..k]), off + Sum(counts[..k]) + counts[k])
    decreases |counts|
  {
    if k > 0 {
      SumTake(counts, k);
      PacksAt(kids, counts[1..], off + counts[0], k - 1);
    }
  }

  lemma SumTake(counts: seq<nat>, k: nat)
    requires 0 < k <= |counts|
    ensures Sum(counts[..k]) == counts[0] + Sum(counts[1..][..k - 1])
  {
    assert counts[..k][1..] == counts[1..][..k - 1];
    SumFront(counts[..k]);
  }

  lemma {:induction false} ItemGroupAt(kids: seq<Child>, counts: seq<nat>, off: nat, self: nat, parent: nat, k: nat)
    requires Packs(kids, counts, off) && k < |counts| && off + Sum(counts[..k]) + counts[k] <= |kids|
    ensures ItemGroups(kids, counts, off, self, parent)[k]
            == Items(kids, off + Sum(counts[..k]), off + Sum(counts[..k]) + counts[k], self, parent)
    decreases |counts|
  {
    if k > 0 {
      SumTake(counts, k);
      ItemGroupAt(kids, counts[1..], off + counts[0], self, parent, k - 1);
    }
  }
}
