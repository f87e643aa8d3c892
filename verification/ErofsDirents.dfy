/**
 Directory entry blocks: what the builder writes for a group of entries, and the
 proof that `DirentsIterator` reads exactly those entries back.
 */
module ErofsDirents {
  import opened Bytes
  import opened ErofsDisk

  const BLOCK: nat := 4096

  /** An entry the format can hold: a positive, NUL-free name that fits a block beside its header. */
  predicate LegalName(name: Bytes) {
    1 <= |name| <= BLOCK - DIRENT_SIZE && 0 !in name
  }

  predicate LegalItem(item: DirentItem) {
    LegalName(item.name) && item.diskId < 0x1_0000_0000 && item.fileType <= 7
  }

  predicate LegalItems(items: seq<DirentItem>) {
    forall i :: 0 <= i < |items| ==> LegalItem(items[i])
  }

  function NamesLen(items: seq<DirentItem>): nat {
    if items == [] then 0 else NamesLen(items[..|items| - 1]) + |items[|items| - 1].name|
  }

  function Names(items: seq<DirentItem>): (r: Bytes)
    ensures |r| == NamesLen(items)
  {
    if items == [] then [] else Names(items[..|items| - 1]) + items[|items| - 1].name
  }

  function Header(item: DirentItem, nameOffset: nat): (r: Bytes)
    ensures |r| == DIRENT_SIZE
  {
    var f := DirentFields(RawDirent(item.diskId, nameOffset, item.fileType));
    assert Width(f.rest.rest) == 2;
    Pack(f)
  }

  /** Headers of `items`, the names starting at offset `base` of the block. */
  function Headers(items: seq<DirentItem>, base: nat): (r: Bytes)
    ensures |r| == DIRENT_SIZE * |items|
  {
    if items == [] then []
    else
      var n := |items| - 1;
      Headers(items[..n], base) + Header(items[n], base + NamesLen(items[..n]))
  }

  function BodyLen(items: seq<DirentItem>): nat {
    DIRENT_SIZE * |items| + NamesLen(items)
  }

  function Body(items: seq<DirentItem>): (r: Bytes)
    ensures |r| == BodyLen(items)
  {
    Headers(items, DIRENT_SIZE * |items|) + Names(items)
  }

  /** A block as written: the body, zero-filled to the block size. */
  function Block(items: seq<DirentItem>): (r: Bytes)
    requires BodyLen(items) <= BLOCK
    ensures |r| == BLOCK
  {
    Body(items) + Zeros(BLOCK - BodyLen(items))
  }

  predicate GroupOk(items: seq<DirentItem>) {
    items != [] && LegalItems(items) && BodyLen(items) <= BLOCK
  }

  predicate GroupsOk(groups: seq<seq<DirentItem>>) {
    forall i :: 0 <= i < |groups| ==> GroupOk(groups[i])
  }

  /** Every block in full. */
  function Blocks(groups: seq<seq<DirentItem>>): (r: Bytes)
    requires GroupsOk(groups)
    ensures |r| == BLOCK * |groups|
  {
    if groups == [] then [] else Block(groups[0]) + Blocks(groups[1..])
  }

  /** The directory's data: full blocks, the last one without its padding. */
  function Flat(groups: seq<seq<DirentItem>>): (r: Bytes)
    requires GroupsOk(groups)
    ensures groups != [] ==> |r| == BLOCK * (|groups| - 1) + BodyLen(groups[|groups| - 1])
  {
    if groups == [] then []
    else if |groups| == 1 then Body(groups[0])
    else
      assert GroupOk(groups[0]) && groups[1..][|groups| - 2] == groups[|groups| - 1];
      Block(groups[0]) + Flat(groups[1..])
  }

  lemma {:induction false} FlatPrefix(groups: seq<seq<DirentItem>>)
    requires GroupsOk(groups)
    ensures Flat(groups) <= Blocks(groups)
  {
    if |groups| == 1 {
      assert Blocks(groups) == Block(groups[0]) + Blocks(groups[1..]);
    } else if |groups| > 1 {
      FlatPrefix(groups[1..]);
    }
  }

  function Concat(groups: seq<seq<DirentItem>>): seq<DirentItem> {
    if groups == [] then [] else groups[0] + Concat(groups[1..])
  }

  // ---------- where the pieces of a body lie ----------

  lemma {:induction false} NamesLenMonotone(items: seq<DirentItem>, k: nat)
    requires k < |items|
    ensures NamesLen(items[..k]) + |items[k].name| == NamesLen(items[..k + 1]) <= NamesLen(items)
    decreases |items| - k
  {
    assert items[..k + 1][..k] == items[..k];
    if k + 1 < |items| {
      NamesLenMonotone(items, k + 1);
    } else {
      assert items[..k + 1] == items;
    }
  }

  lemma {:induction false} HeaderAt(items: seq<DirentItem>, base: nat, k: nat)
    requires k < |items|
    ensures Headers(items, base)[DIRENT_SIZE * k..DIRENT_SIZE * (k + 1)]
            == Header(items[k], base + NamesLen(items[..k]))
  {
    hide Header;
    var n := |items| - 1;
    var front, last := Headers(items[..n], base), Header(items[n], base + NamesLen(items[..n]));
    assert Headers(items, base) == front + last;
    if k < n {
      HeaderAt(items[..n], base, k);
      assert items[..n][..k] == items[..k];
      SliceOfFront(front, last, DIRENT_SIZE * k, DIRENT_SIZE * (k + 1));
    } else {
      SliceOfBack(front, last);
    }
  }

  lemma {:induction false} NameAt(items: seq<DirentItem>, k: nat)
    requires k < |items|
    ensures NamesLen(items[..k]) + |items[k].name| <= NamesLen(items)
    ensures Names(items)[NamesLen(items[..k])..NamesLen(items[..k]) + |items[k].name|] == items[k].name
  {
    var n := |items| - 1;
    var front, last := Names(items[..n]), items[n].name;
    assert Names(items) == front + last;
    if k < n {
      NameAt(items[..n], k);
      assert items[..n][..k] == items[..k];
      SliceOfFront(front, last, NamesLen(items[..k]), NamesLen(items[..k]) + |items[k].name|);
    } else {
      SliceOfBack(front, last);
    }
  }

  function OffsetOf(items: seq<DirentItem>, k: nat): nat
    requires k <= |items|
  {
    DIRENT_SIZE * |items| + NamesLen(items[..k])
  }

  lemma HeaderRoundTrip(item: DirentItem, nameOffset: nat, rest: Bytes)
    requires LegalItem(item) && nameOffset < 0x1_0000
    ensures ReadDirent(Header(item, nameOffset) + rest) == Some(RawDirent(item.diskId, nameOffset, item.fileType))
  {
    WidthBounds();
    var f := DirentFields(RawDirent(item.diskId, nameOffset, item.fileType));
    assert SameShape(f.rest.rest, DIRENT_SHAPE.rest.rest) && Fits(f.rest.rest);
    PackRoundTrip(f, DIRENT_SHAPE, rest);
  }

  /** Header `k` read from any data that starts with the body. */
  lemma GetHeader(c: Cursor, items: seq<DirentItem>, k: nat)
    requires GroupOk(items) && Body(items) <= c.data && k < |items|
    ensures c.Get(k) == Ok(RawDirent(items[k].diskId, OffsetOf(items, k), items[k].fileType))
  {
    hide Headers, Names, NamesLen, Header, ReadDirent;
    NamesLenMonotone(items, k);
    assert LegalItem(items[k]);
    BodyHeader(c.data, items, k);
    HeaderRoundTrip(items[k], OffsetOf(items, k), c.data[DIRENT_SIZE * (k + 1)..]);
  }

  lemma BodyHeader(data: Bytes, items: seq<DirentItem>, k: nat)
    requires Body(items) <= data && k < |items|
    ensures data[DIRENT_SIZE * k..] == Header(items[k], OffsetOf(items, k)) + data[DIRENT_SIZE * (k + 1)..]
  {
    hide Header, Headers, Names, NamesLen;
    var base := DIRENT_SIZE * |items|;
    var hs := Headers(items, base);
    HeaderAt(items, base, k);
    var lo, hi := DIRENT_SIZE * k, DIRENT_SIZE * (k + 1);
    assert hs <= Body(items);
    SliceOfPrefix(hs, data, lo, hi);
    assert data[lo..] == data[lo..hi] + data[hi..];
  }

  lemma SliceOfPrefix(a: Bytes, data: Bytes, lo: nat, hi: nat)
    requires a <= data && lo <= hi <= |a|
    ensures data[lo..hi] == a[lo..hi]
  {
  }

  lemma BodyName(data: Bytes, items: seq<DirentItem>, k: nat)
    requires Body(items) <= data && k < |items|
    ensures OffsetOf(items, k) + |items[k].name| == OffsetOf(items, k + 1) <= |data|
    ensures data[OffsetOf(items, k)..OffsetOf(items, k + 1)] == items[k].name
  {
    hide Headers, Names, NamesLen;
    NameAt(items, k);
    NamesLenMonotone(items, k);
    var base := DIRENT_SIZE * |items|;
    var lo, hi := NamesLen(items[..k]), NamesLen(items[..k + 1]);
    assert data[base..base + NamesLen(items)] == Names(items);
    SliceOfSlice(data, base, base + NamesLen(items), lo, hi);
  }

  // ---------- one step of the iterator ----------

  lemma NextInside(c: Cursor, items: seq<DirentItem>)
    requires GroupOk(items) && Body(items) <= c.data
    requires c.i + 1 < c.count == |items| && c.blockSize >= 1
    ensures c.Next() == Ok((items[c.i], c.(i := c.i + 1)))
  {
    hide Body, NamesLen, Headers, Names, UpToNul, Cursor.Get;
    GetHeader(c, items, c.i);
    GetHeader(c, items, c.i + 1);
    BodyName(c.data, items, c.i);
    assert LegalItem(items[c.i]);
  }

  lemma {:induction false} UpToNulOfPadded(name: Bytes, n: nat)
    requires 0 !in name
    ensures UpToNul(name + Zeros(n)) == name
  {
    if name != [] {
      assert name == [name[0]] + name[1..];
      assert (name + Zeros(n))[1..] == name[1..] + Zeros(n);
      UpToNulOfPadded(name[1..], n);
    }
  }

  /** The last name of a block is never read with a zero byte in it, whatever was written. */
  lemma LastNameCut(c: Cursor)
    requires c.i + 1 == c.count && c.blockSize >= 1 && c.Next().Ok?
    ensures 0 !in c.Next().value.0.name
  {
  }

  /** The bytes from the last name to the end of the block: the name and its padding. */
  lemma LastName(data: Bytes, items: seq<DirentItem>, pad: nat)
    requires GroupOk(items) && Body(items) + Zeros(pad) <= data
    ensures OffsetOf(items, |items| - 1) <= BodyLen(items) + pad <= |data|
    ensures UpToNul(data[OffsetOf(items, |items| - 1)..BodyLen(items) + pad]) == items[|items| - 1].name
  {
    hide Headers, Names, UpToNul;
    var n := |items| - 1;
    var off := OffsetOf(items, n);
    BodyName(data, items, n);
    assert items[..n + 1] == items;
    assert data[..BodyLen(items) + pad] == Body(items) + Zeros(pad);
    assert data[off..BodyLen(items) + pad] == data[off..BodyLen(items)] + data[BodyLen(items)..BodyLen(items) + pad];
    assert data[BodyLen(items)..BodyLen(items) + pad] == Zeros(pad);
    assert LegalItem(items[n]);
    UpToNulOfPadded(items[n].name, pad);
  }

  /** `reset_count` reads the number of entries from the first name offset. */
  lemma ResetOnGroup(c: Cursor, items: seq<DirentItem>)
    requires GroupOk(items) && Body(items) <= c.data
    ensures c.ResetCount() == Ok(c.(i := 0, count := |items|))
  {
    assert c.data != [] && c.Refill() == c;
    GetHeader(c, items, 0);
    assert c.data[DIRENT_SIZE * 0..] == c.data;
    assert items[..0] == [];
  }

  // ---------- the whole directory ----------

  /** Every remaining item, or the first error. */
  function ReadAll(c: Cursor): Result<seq<DirentItem>, ReadError>
    requires c.i <= c.count && c.blockSize >= 1
    decreases c.Left(), c.count - c.i
  {
    if c.i == c.count then Ok([]) else
    match c.Next()
    case Err(e) => Err(e)
    case Ok((item, c')) =>
      match ReadAll(c')
      case Err(e) => Err(e)
      case Ok(rest) => Ok([item] + rest)
  }

  /** What comes after the block part. */
  function Rest(c: Cursor): Bytes {
    if c.remaining.Some? then c.remaining.value else []
  }

  /** Block part and tail together are the directory's data, cut at a block boundary if there is a tail. */
  predicate Split(block: Bytes, tail: Bytes, groups: seq<seq<DirentItem>>)
    requires GroupsOk(groups)
  {
    block + tail == Flat(groups) && (tail == [] || |block| % BLOCK == 0)
  }

  /** A cursor standing at entry `k` of the first group of `groups`. */
  predicate AtEntry(c: Cursor, groups: seq<seq<DirentItem>>, k: nat) {
    && groups != [] && GroupsOk(groups) && k < |groups[0]|
    && c.i == k && c.count == |groups[0]| && c.blockSize == BLOCK
    && c.data != [] && Split(c.data, Rest(c), groups)
  }

  /** The last entry of a group: its header, and its name up to the end of the block. */
  lemma LastEntry(c: Cursor, items: seq<DirentItem>, pad: nat)
    requires GroupOk(items) && c.i + 1 == |items|
    requires Body(items) + Zeros(pad) <= c.data
    ensures c.Get(c.i) == Ok(RawDirent(items[c.i].diskId, OffsetOf(items, c.i), items[c.i].fileType))
    ensures items[c.i].fileType <= 7 && OffsetOf(items, c.i) <= BodyLen(items) + pad <= |c.data|
    ensures UpToNul(c.data[OffsetOf(items, c.i)..BodyLen(items) + pad]) == items[c.i].name
  {
    assert Body(items) <= c.data;
    GetHeader(c, items, c.i);
    LastName(c.data, items, pad);
    assert LegalItem(items[c.i]);
  }

  lemma NextOnLast(c: Cursor, d: RawDirent, end: nat)
    requires c.i + 1 == c.count && c.blockSize >= 1 && c.Get(c.i) == Ok(d) && d.fileType <= 7
    requires d.nameOffset <= end == if |c.data| < c.blockSize then |c.data| else c.blockSize
    requires c.(data := c.data[end..]).ResetCount().Ok?
    ensures c.Next() == Ok((DirentItem(d.diskId, d.fileType, UpToNul(c.data[d.nameOffset..end])),
                            c.(data := c.data[end..]).ResetCount().value))
  {
  }

  lemma FlatSplit(groups: seq<seq<DirentItem>>)
    requires GroupsOk(groups) && |groups| > 1
    ensures GroupsOk(groups[1..]) && Flat(groups) == Block(groups[0]) + Flat(groups[1..])
  {
  }

  /** The first group lies in the block part as a whole, and the rest of the bytes is the rest of the groups. */
  lemma SplitNext(block: Bytes, tail: Bytes, groups: seq<seq<DirentItem>>)
    requires GroupsOk(groups) && |groups| > 1 && block != [] && Split(block, tail, groups)
    ensures |block| >= BLOCK && Block(groups[0]) <= block && Split(block[BLOCK..], tail, groups[1..])
  {
    hide Block, Body;
    FlatSplit(groups);
    assert GroupOk(groups[0]);
    var b, rest := Block(groups[0]), Flat(groups[1..]);
    assert block + tail == b + rest;
    assert |block| >= BLOCK;
    assert block[..BLOCK] == (block + tail)[..BLOCK] == b;
    assert block[BLOCK..] + tail == (block + tail)[BLOCK..] == rest;
  }

  /** With one group left there is no tail left. */
  lemma SplitLast(block: Bytes, tail: Bytes, groups: seq<seq<DirentItem>>)
    requires GroupsOk(groups) && |groups| == 1 && block != [] && Split(block, tail, groups)
    ensures block == Body(groups[0]) && tail == []
  {
    hide Body;
    assert GroupOk(groups[0]);
    assert |block| + |tail| == BodyLen(groups[0]) <= BLOCK;
    assert tail == [];
    assert block + tail == block;
  }

  /** The first entries are in the block part. */
  lemma SplitStart(block: Bytes, tail: Bytes, groups: seq<seq<DirentItem>>)
    requires GroupsOk(groups) && groups != [] && block != [] && Split(block, tail, groups)
    ensures Body(groups[0]) <= block
  {
    hide Body;
    if |groups| > 1 {
      SplitNext(block, tail, groups);
      assert Body(groups[0]) <= Block(groups[0]);
    } else {
      SplitLast(block, tail, groups);
    }
  }

  /** `reset_count` at the start of the remaining groups, moving on to the tail if the block part is used up. */
  lemma ResetAt(c: Cursor, groups: seq<seq<DirentItem>>)
    requires groups != [] && GroupsOk(groups) && c.blockSize == BLOCK && Split(c.data, Rest(c), groups)
    ensures c.ResetCount().Ok? && AtEntry(c.ResetCount().value, groups, 0)
  {
    hide Body, Flat, ReadDirent;
    var c' := c.Refill();
    assert GroupOk(groups[0]);
    FlatNonempty(groups);
    if c.data == [] {
      assert c'.data == c.data + Rest(c) && Rest(c') == [];
      assert c'.data + Rest(c') == c'.data;
    }
    SplitStart(c'.data, Rest(c'), groups);
    ResetOnGroup(c', groups[0]);
  }

  lemma FlatNonempty(groups: seq<seq<DirentItem>>)
    requires GroupsOk(groups) && groups != []
    ensures Flat(groups) != []
  {
    assert GroupOk(groups[0]) && GroupOk(groups[|groups| - 1]);
  }

  lemma NextAcross(c: Cursor, groups: seq<seq<DirentItem>>, k: nat)
    requires AtEntry(c, groups, k) && k + 1 == |groups[0]| && |groups| > 1
    ensures c.Next().Ok? && c.Next().value.0 == groups[0][k] && AtEntry(c.Next().value.1, groups[1..], 0)
  {
    hide Body, Flat, Split, Zeros, UpToNul, Cursor.ResetCount, Cursor.Get;
    var items := groups[0];
    assert GroupOk(items) && GroupsOk(groups[1..]);
    SplitNext(c.data, Rest(c), groups);
    ResetAt(c.(data := c.data[BLOCK..]), groups[1..]);
    LastEntry(c, items, BLOCK - BodyLen(items));
    NextOnLast(c, RawDirent(items[k].diskId, OffsetOf(items, k), items[k].fileType), BLOCK);
  }

  lemma NextAtEnd(c: Cursor, groups: seq<seq<DirentItem>>, k: nat)
    requires AtEntry(c, groups, k) && k + 1 == |groups[0]| && |groups| == 1
    ensures c.Next() == Ok((groups[0][k], Cursor([], None, 0, 0, BLOCK)))
  {
    hide Flat, Split, UpToNul, Cursor.Get, Headers, Names;
    var items := groups[0];
    assert GroupOk(items);
    SplitLast(c.data, Rest(c), groups);
    assert Body(items) + Zeros(0) == c.data;
    assert c.data[BodyLen(items) + 0..] == [];
    LastEntry(c, items, 0);
    NextOnLast(c, RawDirent(items[k].diskId, OffsetOf(items, k), items[k].fileType), |c.data|);
  }

  /** Entry `k` of `items` comes first, then what the iterator reads from `c'`. */
  lemma ReadStep(c: Cursor, items: seq<DirentItem>, k: nat, c': Cursor, rest: seq<DirentItem>)
    requires c.i < c.count && c.blockSize >= 1 && k < |items|
    requires c.Next() == Ok((items[k], c')) && ReadAll(c') == Ok(items[k + 1..] + rest)
    ensures ReadAll(c) == Ok(items[k..] + rest)
  {
    ReadAllStep(c, items[k], c', items[k + 1..] + rest);
    FrontItem(items, k, rest);
  }

  lemma ReadAllStep(c: Cursor, item: DirentItem, c': Cursor, rest: seq<DirentItem>)
    requires c.i < c.count && c.blockSize >= 1 && c.Next() == Ok((item, c')) && ReadAll(c') == Ok(rest)
    ensures ReadAll(c) == Ok([item] + rest)
  {
    hide c.Next;
  }

  lemma FrontItem(items: seq<DirentItem>, k: nat, rest: seq<DirentItem>)
    requires k < |items|
    ensures [items[k]] + (items[k + 1..] + rest) == items[k..] + rest
  {
  }

  lemma {:induction false} ReadFrom(c: Cursor, groups: seq<seq<DirentItem>>, k: nat)
    requires AtEntry(c, groups, k)
    ensures ReadAll(c) == Ok(groups[0][k..] + Concat(groups[1..]))
    decreases |groups|, |groups[0]| - k
  {
    hide AtEntry, ReadAll, Cursor.Next, Concat;
    AtEntryCount(c, groups, k);
    if k + 1 < |groups[0]| {
      NextInGroup(c, groups, k);
      ReadFrom(c.(i := k + 1), groups, k + 1);
      ReadStep(c, groups[0], k, c.(i := k + 1), Concat(groups[1..]));
    } else if |groups| > 1 {
      NextAcross(c, groups, k);
      var next := c.Next().value.1;
      ReadFrom(next, groups[1..], 0);
      AtEntryCount(next, groups[1..], 0);
      ConcatSplit(groups[1..]);
      ReadLast(c, groups[0], k, next, Concat(groups[1..]));
    } else {
      NextAtEnd(c, groups, k);
      ReadNone(groups[1..]);
      ReadLast(c, groups[0], k, Cursor([], None, 0, 0, BLOCK), Concat(groups[1..]));
    }
  }

  lemma AtEntryCount(c: Cursor, groups: seq<seq<DirentItem>>, k: nat)
    requires AtEntry(c, groups, k)
    ensures groups != [] && k < |groups[0]| && c.i < c.count && c.blockSize >= 1
  {
  }

  lemma ReadNone(groups: seq<seq<DirentItem>>)
    requires groups == []
    ensures ReadAll(Cursor([], None, 0, 0, BLOCK)) == Ok(Concat(groups))
  {
  }

  lemma ReadLast(c: Cursor, items: seq<DirentItem>, k: nat, c': Cursor, rest: seq<DirentItem>)
    requires c.i < c.count && c.blockSize >= 1 && k + 1 == |items|
    requires c.Next() == Ok((items[k], c')) && ReadAll(c') == Ok(rest)
    ensures ReadAll(c) == Ok(items[k..] + rest)
  {
    assert items[k + 1..] + rest == rest;
    ReadStep(c, items, k, c', rest);
  }

  lemma ConcatSplit(groups: seq<seq<DirentItem>>)
    requires groups != []
    ensures groups[0][0..] + Concat(groups[1..]) == Concat(groups)
  {
  }

  lemma NextInGroup(c: Cursor, groups: seq<seq<DirentItem>>, k: nat)
    requires AtEntry(c, groups, k) && k + 1 < |groups[0]|
    ensures c.Next() == Ok((groups[0][k], c.(i := k + 1)))
    ensures AtEntry(c.(i := k + 1), groups, k + 1)
  {
    hide Headers, Names, Block, Body, Flat;
    assert GroupOk(groups[0]);
    SplitStart(c.data, Rest(c), groups);
    NextInside(c, groups[0]);
  }

  /**
   Iterating over a directory gives back its entries, in order, wherever its bytes are cut into a block part
   and a tail; all of them in the tail included.
   */
  lemma DirentRoundTrip(block: Bytes, tail: Bytes, groups: seq<seq<DirentItem>>)
    requires groups != [] && GroupsOk(groups) && Split(block, tail, groups)
    ensures Dirents(block, tail, BLOCK).Ok? && ReadAll(Dirents(block, tail, BLOCK).value) == Ok(Concat(groups))
  {
    hide Split, ReadAll, Flat, Cursor.ResetCount;
    ResetAt(Cursor(block, Some(tail), 0, 0, BLOCK), groups);
    var c := Dirents(block, tail, BLOCK).value;
    ReadFrom(c, groups, 0);
    ConcatSplit(groups);
  }

  function FirstNamed(items: seq<DirentItem>, name: Bytes): Option<DirentItem> {
    if items == [] then None
    else if items[0].name == name then Some(items[0])
    else FirstNamed(items[1..], name)
  }

  lemma {:induction false} FindInRead(c: Cursor, name: Bytes)
    requires c.i <= c.count && c.blockSize >= 1 && ReadAll(c).Ok?
    ensures FindEntry(c, name) == Ok(FirstNamed(ReadAll(c).value, name))
    decreases c.Left(), c.count - c.i
  {
    if c.i < c.count {
      var (item, c') := c.Next().value;
      FindInRead(c', name);
      assert ReadAll(c).value[1..] == ReadAll(c').value;
    }
  }

  /** With distinct names the first match is the match. */
  lemma {:induction false} FirstNamedIs(items: seq<DirentItem>, k: nat)
    requires k < |items|
    requires forall i, j :: 0 <= i < j < |items| ==> items[i].name != items[j].name
    ensures FirstNamed(items, items[k].name) == Some(items[k])
  {
    if k > 0 { FirstNamedIs(items[1..], k - 1); }
  }

  lemma {:induction false} FirstNamedNone(items: seq<DirentItem>, name: Bytes)
    requires forall i :: 0 <= i < |items| ==> items[i].name != name
    ensures FirstNamed(items, name) == None
  {
    if items != [] { FirstNamedNone(items[1..], name); }
  }
}
