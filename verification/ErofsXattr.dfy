/**
 Extended attributes: the area the builder writes after an inode and the iterator
 that reads it (peerofs/src/build.rs, peerofs/src/disk.rs).
 */
module ErofsXattr {
  import opened Bytes
  import opened ErofsDisk
  import opened ErofsTree

  // "user.", "system.posix_acl_access", "system.posix_acl_default", "trusted", "", "security."
  const USER: Bytes := [117, 115, 101, 114, 46]
  const ACL: Bytes := [115, 121, 115, 116, 101, 109, 46, 112, 111, 115, 105, 120, 95, 97, 99, 108, 95]
  const ACL_ACCESS: Bytes := ACL + [97, 99, 99, 101, 115, 115]
  const ACL_DEFAULT: Bytes := ACL + [100, 101, 102, 97, 117, 108, 116]
  const TRUSTED: Bytes := [116, 114, 117, 115, 116, 101, 100]
  const SECURITY: Bytes := [115, 101, 99, 117, 114, 105, 116, 121, 46]
  const PREFIXES: seq<Bytes> := [USER, ACL_ACCESS, ACL_DEFAULT, TRUSTED, [], SECURITY]

  /** `xattr_builtin_prefix`: the id (1-based) of the first table entry the key starts with. */
  function PrefixFrom(key: Bytes, i: nat): (id: Option<nat>)
    requires i <= |PREFIXES|
    ensures id.Some? ==> i < id.value <= |PREFIXES| && PREFIXES[id.value - 1] <= key
    ensures id.Some? ==> forall j :: i <= j < id.value - 1 ==> !(PREFIXES[j] <= key)
    ensures id.None? ==> forall j :: i <= j < |PREFIXES| ==> !(PREFIXES[j] <= key)
    decreases |PREFIXES| - i
  {
    if i == |PREFIXES| then None
    else if PREFIXES[i] <= key then Some(i + 1)
    else PrefixFrom(key, i + 1)
  }

  function BuiltinPrefix(key: Bytes): Option<nat> {
    PrefixFrom(key, 0)
  }

  /** The empty fifth prefix matches every key, so one is always found and `security.` never is. */
  lemma PrefixAlwaysFound(key: Bytes)
    ensures BuiltinPrefix(key).Some? && 1 <= BuiltinPrefix(key).value <= 5
  {
    assert PREFIXES[4] == [] <= key;
  }

  function PrefixId(key: Bytes): (id: nat)
    ensures 1 <= id <= 5 && PREFIXES[id - 1] <= key
  {
    PrefixAlwaysFound(key);
    BuiltinPrefix(key).value
  }

  /** An attribute as stored: the prefix id, the rest of the key, and the value. */
  datatype Stored = Stored(prefix: nat, name: Bytes, value: Bytes)

  function Store(x: Xattr): (r: Stored)
    ensures 1 <= r.prefix <= 5
  {
    var id := PrefixId(x.key);
    Stored(id, x.key[|PREFIXES[id - 1]|..], x.value)
  }

  /** `get_xattr_prefix` put in front of the stored name. */
  function Restore(r: Stored): Result<Xattr, ReadError> {
    if r.prefix == 0 then Ok(Xattr(r.name, r.value))
    else if r.prefix <= 6 then Ok(Xattr(PREFIXES[r.prefix - 1] + r.name, r.value))
    else Err(XattrPrefixTableNotHandled)
  }

  lemma KeyRoundTrip(x: Xattr)
    ensures Restore(Store(x)) == Ok(x)
  {
    var p := PREFIXES[PrefixId(x.key) - 1];
    assert x.key == p + x.key[|p|..];
  }

  function StoreAll(xs: seq<Xattr>): (r: seq<Stored>)
    ensures |r| == |xs|
    ensures forall i :: 0 <= i < |r| ==> r[i] == Store(xs[i])
  {
    seq(|xs|, i requires 0 <= i < |xs| => Store(xs[i]))
  }

  /** The bytes of name suffix and value. */
  function PayloadLen(x: Stored): nat {
    |x.name| + |x.value|
  }

  function EntryError(x: Stored): Option<BuildError> {
    if |x.name| >= 0x100 then Some(XattrKeyTooLong)
    else if |x.value| >= 0x1_0000 then Some(XattrValueTooLong)
    else None
  }

  predicate EntryOk(x: Stored) {
    1 <= x.prefix <= 5 && EntryError(x).None?
  }

  predicate EntriesOk(xs: seq<Stored>) {
    forall i :: 0 <= i < |xs| ==> EntryOk(xs[i])
  }

  /** `make_xattr_entries`: the first error in key order. */
  function EntriesError(xs: seq<Stored>): Option<BuildError> {
    if xs == [] then None
    else if EntryError(xs[0]).Some? then EntryError(xs[0])
    else EntriesError(xs[1..])
  }

  /** `XattrEntry` (name length, prefix id, value size as a little-endian u16), then name and value. */
  function EntryBytes(x: Stored): (r: Bytes)
    ensures |r| == XATTR_ENTRY_SIZE + PayloadLen(x)
  {
    [|x.name| % 256, x.prefix % 256, |x.value| % 256, |x.value| / 256 % 256] + x.name + x.value
  }

  function EntriesBytes(xs: seq<Stored>): Bytes {
    if xs == [] then [] else EntryBytes(xs[0]) + EntriesBytes(xs[1..])
  }

  /** `round_up_to::<4>`, which gives 4 for 0. */
  function RoundUp4(n: nat): (r: nat)
    ensures r % 4 == 0 && n <= r <= n + 4 && (r == n + 4 <==> n == 0)
  {
    if n == 0 then 4 else (n + 3) / 4 * 4
  }

  function PaddedLen(xs: seq<Stored>): (r: nat)
    ensures r % 4 == 0 && r >= |EntriesBytes(xs)|
  {
    if xs == [] then 0 else RoundUp4(|EntriesBytes(xs)|)
  }

  /** The entries and the padding after the last one. */
  function Area(xs: seq<Stored>): (r: Bytes)
    ensures |r| == PaddedLen(xs)
  {
    EntriesBytes(xs) + Zeros(PaddedLen(xs) - |EntriesBytes(xs)|)
  }

  /** `xattr_count` */
  function XattrCount(xs: seq<Stored>): nat {
    if xs == [] then 0 else PaddedLen(xs) / 4 + 1
  }

  /** Everything written between an inode and its tail. */
  function XattrBytes(xs: seq<Stored>): Bytes {
    if xs == [] then [] else Zeros(XATTR_HEADER_SIZE) + Area(xs)
  }

  /** The area is exactly as long as the count field says: the tail begins at `inode_end`. */
  lemma XattrBytesLen(xs: seq<Stored>)
    ensures |XattrBytes(xs)| == XattrLen(XattrCount(xs))
  {
  }

  lemma CountedXattrs(xs: seq<Stored>)
    ensures xs == [] <==> XattrLen(XattrCount(xs)) == 0
    ensures xs != [] ==> XattrLen(XattrCount(xs)) >= XATTR_HEADER_SIZE
  {
  }

  // ---------- reading ----------

  /** `next_unshared`: the stored attribute and the data after it. */
  function NextXattr(data: Bytes): (r: Result<(Stored, Bytes), ReadError>)
    ensures r.Ok? ==> |r.value.1| < |data|
  {
    if |data| < XATTR_ENTRY_SIZE then Err(BadConversion)
    else TakeXattr(data[0], data[1], (data[2] as int) + 256 * (data[3] as int), data[XATTR_ENTRY_SIZE..])
  }

  /** Name and value from the bytes after the entry header; what is left starts at the next multiple of 4. */
  function TakeXattr(nameLen: nat, prefix: nat, valueSize: nat, body: Bytes): (r: Result<(Stored, Bytes), ReadError>)
    ensures r.Ok? ==> |r.value.1| <= |body|
  {
    var skip := RoundUp4(nameLen + valueSize);
    if skip > |body| then Err(Oob)
    else if 7 <= prefix < 0x80 then Err(InvalidXattrPrefix)
    else Ok((Stored(prefix, body[..nameLen], body[nameLen..nameLen + valueSize]), AtLeastEntry(body[skip..])))
  }

  /** Fewer bytes than an entry header are dropped. */
  function AtLeastEntry(data: Bytes): Bytes {
    if |data| < XATTR_ENTRY_SIZE then [] else data
  }

  function ReadStored(data: Bytes): Result<seq<Stored>, ReadError>
    decreases |data|
  {
    if data == [] then Ok([]) else
    match NextXattr(data)
    case Err(e) => Err(e)
    case Ok((x, rest)) =>
      match ReadStored(rest)
      case Err(e) => Err(e)
      case Ok(xs) => Ok([x] + xs)
  }

  /** The reader pads every entry, the writer only the last: these lists are laid out alike. */
  predicate Aligned(xs: seq<Stored>) {
    && (forall i :: 0 <= i < |xs| ==> PayloadLen(xs[i]) > 0)
    && (forall i :: 0 <= i < |xs| - 1 ==> PayloadLen(xs[i]) % 4 == 0)
  }

  lemma EntriesStep(xs: seq<Stored>)
    requires xs != []
    ensures EntriesBytes(xs) == EntryBytes(xs[0]) + EntriesBytes(xs[1..])
    ensures |EntriesBytes(xs)| == 4 + PayloadLen(xs[0]) + |EntriesBytes(xs[1..])|
  {
  }

  /** One entry read back, from whatever follows it, if the rounded payload is there. */
  lemma NextOfEntry(x: Stored, rest: Bytes)
    requires EntryOk(x)
    ensures var k := RoundUp4(PayloadLen(x)) - PayloadLen(x);
      if k <= |rest| then NextXattr(EntryBytes(x) + rest) == Ok((x, AtLeastEntry(rest[k..])))
      else NextXattr(EntryBytes(x) + rest).Err?
  {
    hide TakeXattr, RoundUp4, AtLeastEntry;
    var data := EntryBytes(x) + rest;
    assert data[4..] == x.name + x.value + rest;
    assert data[0] == |x.name| && data[1] == x.prefix && (data[2] as int) + 256 * (data[3] as int) == |x.value|;
    TakeOfBody(x, rest, RoundUp4(PayloadLen(x)));
  }

  lemma TakeOfBody(x: Stored, rest: Bytes, skip: nat)
    requires x.prefix < 7 && skip == RoundUp4(PayloadLen(x))
    ensures var r := TakeXattr(|x.name|, x.prefix, |x.value|, x.name + x.value + rest);
      if skip <= PayloadLen(x) + |rest| then r == Ok((x, AtLeastEntry(rest[skip - PayloadLen(x)..]))) else r.Err?
  {
    var body := x.name + x.value + rest;
    assert body[..|x.name|] == x.name;
    assert body[|x.name|..PayloadLen(x)] == x.value;
    if skip <= |body| {
      assert body[skip..] == rest[skip - PayloadLen(x)..];
    }
  }

  lemma AreaStep(xs: seq<Stored>)
    requires |xs| > 1 && PayloadLen(xs[0]) % 4 == 0
    ensures Area(xs) == EntryBytes(xs[0]) + Area(xs[1..])
    ensures |Area(xs[1..])| >= 4
  {
    hide EntryBytes;
    EntriesStep(xs);
    EntriesStep(xs[1..]);
  }

  /** What follows the first entry in the area. */
  function AfterFirst(xs: seq<Stored>): (r: Bytes)
    requires xs != []
    ensures Area(xs) == EntryBytes(xs[0]) + r
    ensures r == EntriesBytes(xs[1..]) + Zeros(PaddedLen(xs) - |EntriesBytes(xs)|)
  {
    EntriesStep(xs);
    EntriesBytes(xs[1..]) + Zeros(PaddedLen(xs) - |EntriesBytes(xs)|)
  }

  /** A payload that is a multiple of 4 leaves the reader at the next entry. */
  lemma StepAligned(xs: seq<Stored>)
    requires |xs| > 1 && EntriesOk(xs)
    requires PayloadLen(xs[0]) > 0 && PayloadLen(xs[0]) % 4 == 0
    ensures NextXattr(Area(xs)) == Ok((xs[0], Area(xs[1..])))
  {
    hide EntryBytes, NextXattr, Area;
    AreaStep(xs);
    var rest := Area(xs[1..]);
    assert RoundUp4(PayloadLen(xs[0])) == PayloadLen(xs[0]);
    assert rest[0..] == rest;
    NextOfEntry(xs[0], rest);
  }

  lemma StepLast(x: Stored)
    requires EntryOk(x)
    ensures NextXattr(Area([x])) == Ok((x, [])) <==> PayloadLen(x) > 0
  {
    hide EntryBytes, NextXattr;
    EntriesStep([x]);
    NextOfEntry(x, AfterFirst([x]));
  }

  lemma ReadOne(data: Bytes, x: Stored, rest: Bytes, xs: seq<Stored>)
    requires data != [] && NextXattr(data) == Ok((x, rest)) && ReadStored(rest) == Ok(xs)
    ensures ReadStored(data) == Ok([x] + xs)
  {
    hide NextXattr;
  }

  lemma {:induction false} ReadAligned(xs: seq<Stored>)
    requires EntriesOk(xs) && Aligned(xs)
    ensures ReadStored(Area(xs)) == Ok(xs)
  {
    hide EntryBytes, NextXattr, RoundUp4, Zeros;
    if xs != [] {
      var x := xs[0];
      EntriesStep(xs);
      assert xs == [x] + xs[1..];
      if |xs| == 1 {
        assert xs == [x];
        StepLast(x);
        ReadOne(Area(xs), x, [], []);
      } else {
        StepAligned(xs);
        ReadAligned(xs[1..]);
        ReadOne(Area(xs), x, Area(xs[1..]), xs[1..]);
      }
    }
  }

  /** An entry that reads as `x` is made of the bytes of `x`. */
  lemma ReadMeansBytes(data: Bytes, x: Stored)
    requires NextXattr(data).Ok? && NextXattr(data).value.0 == x
    ensures 4 + RoundUp4(PayloadLen(x)) <= |data| && EntryBytes(x) <= data
    ensures NextXattr(data).value.1 == AtLeastEntry(data[4 + RoundUp4(PayloadLen(x))..])
  {
    hide RoundUp4, TakeXattr, EntryBytes, AtLeastEntry;
    var body, v := data[4..], (data[2] as int) + 256 * (data[3] as int);
    TakeMeans(data[0], data[1], v, body, x);
    HeaderMeans(data, x);
    DropDrop(data, 4, RoundUp4(PayloadLen(x)));
  }

  lemma TakeMeans(nameLen: nat, prefix: nat, valueSize: nat, body: Bytes, x: Stored)
    requires var r := TakeXattr(nameLen, prefix, valueSize, body); r.Ok? && r.value.0 == x
    ensures |x.name| == nameLen && |x.value| == valueSize && x.prefix == prefix
    ensures RoundUp4(PayloadLen(x)) <= |body| && x.name + x.value == body[..PayloadLen(x)]
    ensures TakeXattr(nameLen, prefix, valueSize, body).value.1 == AtLeastEntry(body[RoundUp4(PayloadLen(x))..])
  {
    hide RoundUp4, AtLeastEntry;
  }

  lemma HeaderMeans(data: Bytes, x: Stored)
    requires |data| >= 4 && |x.name| == data[0] as int && x.prefix == data[1] as int
    requires |x.value| == (data[2] as int) + 256 * (data[3] as int)
    requires PayloadLen(x) <= |data[4..]| && x.name + x.value == data[4..][..PayloadLen(x)]
    ensures EntryBytes(x) <= data
  {
    var head := [|x.name| % 256, x.prefix % 256, |x.value| % 256, |x.value| / 256 % 256];
    assert head == data[..4];
    assert EntryBytes(x) == head + (x.name + x.value);
    assert data[..4 + PayloadLen(x)] == data[..4] + data[4..][..PayloadLen(x)];
  }

  lemma DropDrop(data: Bytes, a: nat, b: nat)
    requires a + b <= |data|
    ensures data[a..][b..] == data[a + b..]
  {
  }

  lemma ReadCons(data: Bytes, xs: seq<Stored>)
    requires ReadStored(data) == Ok(xs) && xs != []
    ensures NextXattr(data).Ok? && NextXattr(data).value.0 == xs[0]
    ensures ReadStored(NextXattr(data).value.1) == Ok(xs[1..])
  {
    hide NextXattr;
    var ys := ReadStored(NextXattr(data).value.1).value;
    assert xs == [xs[0]] + ys;
  }

  lemma ReadHead(data: Bytes, xs: seq<Stored>, skip: nat)
    requires ReadStored(data) == Ok(xs) && xs != [] && skip == 4 + RoundUp4(PayloadLen(xs[0]))
    ensures skip <= |data| && EntryBytes(xs[0]) <= data && ReadStored(AtLeastEntry(data[skip..])) == Ok(xs[1..])
  {
    hide *;
    ReadCons(data, xs);
    ReadMeansBytes(data, xs[0]);
  }

  /** Bytes from `w` to `e` that repeat at `p`, with only zeros from `e` on, are all zero. */
  lemma {:induction false} RepeatIsZero(all: Bytes, w: nat, p: nat, e: nat, i: nat)
    requires w < p && w <= i < e && p + (e - w) <= |all|
    requires forall j :: w <= j < e ==> all[j] == all[j + (p - w)]
    requires forall j :: e <= j < |all| ==> all[j] == 0
    ensures all[i] == 0
    decreases e - i
  {
    assert all[i] == all[i + (p - w)];
    if i + (p - w) < e { RepeatIsZero(all, w, p, e, i + (p - w)); }
  }

  /** The last entry, written at `w`, cannot be found at `p` as well. */
  lemma LastElsewhere(all: Bytes, w: nat, p: nat, x: Stored, pad: nat)
    requires EntryOk(x) && w < p <= |all| && all[w..] == EntryBytes(x) + Zeros(pad)
    ensures !(EntryBytes(x) <= all[p..])
  {
    hide RoundUp4;
    var b := EntryBytes(x);
    assert all[w + 1] == all[w..][1] == x.prefix;
    if b <= all[p..] {
      forall j | w <= j < w + |b| ensures all[j] == all[j + (p - w)] {
        assert all[j] == all[w..][j - w] == b[j - w] == all[p..][j - w];
      }
      forall j | w + |b| <= j < |all| ensures all[j] == 0 {
        assert all[j] == all[w..][j - w];
      }
      RepeatIsZero(all, w, p, w + |b|, w + 1);
      assert false;
    }
  }

  /** The bytes of the entries stand where a reader starting at `p` looks for them. */
  predicate FoundFrom(all: Bytes, p: nat, xs: seq<Stored>)
    decreases |xs|
  {
    xs == []
    || (p <= |all| && EntryBytes(xs[0]) <= all[p..] && FoundFrom(all, p + (4 + RoundUp4(PayloadLen(xs[0]))), xs[1..]))
  }

  lemma {:induction false} ReadMeansFound(all: Bytes, p: nat, xs: seq<Stored>)
    requires p <= |all| && ReadStored(all[p..]) == Ok(xs)
    ensures FoundFrom(all, p, xs)
    decreases |xs|
  {
    hide EntryBytes, TakeXattr, RoundUp4, AtLeastEntry, NextXattr;
    if xs != [] {
      var skip := 4 + RoundUp4(PayloadLen(xs[0]));
      ReadHead(all[p..], xs, skip);
      if |xs| > 1 {
        AfterEntry(all, p, skip, xs[1..]);
        ReadMeansFound(all, p + skip, xs[1..]);
      }
    }
  }

  lemma AfterEntry(all: Bytes, p: nat, skip: nat, xs: seq<Stored>)
    requires p + skip <= |all| && xs != [] && ReadStored(AtLeastEntry(all[p..][skip..])) == Ok(xs)
    ensures ReadStored(all[p + skip..]) == Ok(xs)
  {
    hide NextXattr;
    assert all[p..][skip..] == all[p + skip..];
    assert ReadStored([]) == Ok([]);
  }

  /** The entries start at `w`: they are not all found by a reader that has got further than that. */
  lemma {:induction false} NotFoundFurther(all: Bytes, w: nat, p: nat, xs: seq<Stored>, pad: nat)
    requires xs != [] && EntriesOk(xs) && w < p && w <= |all| && all[w..] == EntriesBytes(xs) + Zeros(pad)
    ensures !FoundFrom(all, p, xs)
    decreases |xs|
  {
    hide EntryBytes, RoundUp4, Zeros;
    if FoundFrom(all, p, xs) {
      var x := xs[0];
      EntriesStep(xs);
      if |xs| == 1 {
        assert EntriesBytes(xs) == EntryBytes(x);
        LastElsewhere(all, w, p, x, pad);
      } else {
        DropTwice(all, w, EntryBytes(x), EntriesBytes(xs[1..]) + Zeros(pad), EntriesBytes(xs) + Zeros(pad));
        NotFoundFurther(all, w + |EntryBytes(x)|, p + (4 + RoundUp4(PayloadLen(x))), xs[1..], pad);
      }
    }
  }

  lemma DropTwice(all: Bytes, w: nat, a: Bytes, b: Bytes, ab: Bytes)
    requires w <= |all| && all[w..] == ab == a + b
    ensures w + |a| <= |all| && all[w + |a|..] == b
  {
    assert all[w..][|a|..] == all[w + |a|..];
  }

  lemma RoundsUp(n: nat)
    requires n == 0 || n % 4 != 0
    ensures RoundUp4(n) > n
  {
  }

  lemma FoundTail(all: Bytes, p: nat, xs: seq<Stored>)
    requires xs != [] && FoundFrom(all, p, xs)
    ensures FoundFrom(all, p + (4 + RoundUp4(PayloadLen(xs[0]))), xs[1..])
  {
  }

  lemma OvershotFirst(xs: seq<Stored>)
    requires |xs| > 1 && EntriesOk(xs) && RoundUp4(PayloadLen(xs[0])) > PayloadLen(xs[0])
    ensures !FoundFrom(Area(xs), 0, xs)
  {
    hide EntryBytes, RoundUp4, Area, Zeros, EntriesBytes, PaddedLen, FoundFrom;
    var all := Area(xs);
    if FoundFrom(all, 0, xs) {
      FoundTail(all, 0, xs);
      assert all[0..] == all;
      DropTwice(all, 0, EntryBytes(xs[0]), AfterFirst(xs), all);
      var pad := PaddedLen(xs) - |EntriesBytes(xs)|;
      NotFoundFurther(all, |EntryBytes(xs[0])|, 0 + (4 + RoundUp4(PayloadLen(xs[0]))), xs[1..], pad);
    }
  }

  lemma {:induction false} ReadMisaligned(xs: seq<Stored>)
    requires EntriesOk(xs) && !Aligned(xs)
    ensures ReadStored(Area(xs)) != Ok(xs)
  {
    hide EntryBytes, NextXattr, Area, ReadStored, RoundUp4;
    var x := xs[0];
    if ReadStored(Area(xs)) == Ok(xs) {
      if |xs| == 1 {
        assert xs == [x];
        ReadCons(Area(xs), xs);
        NextOfEntry(x, AfterFirst(xs));
        StepLast(x);
      } else if PayloadLen(x) > 0 && PayloadLen(x) % 4 == 0 {
        ReadCons(Area(xs), xs);
        StepAligned(xs);
        ReadMisaligned(xs[1..]);
      } else {
        RoundsUp(PayloadLen(x));
        assert Area(xs)[0..] == Area(xs);
        ReadMeansFound(Area(xs), 0, xs);
        OvershotFirst(xs);
      }
    }
  }

  /**
   The writer pads once, after the last entry; the reader skips padding after each. So the attributes
   come back as given exactly when the list is aligned.
   */
  lemma XattrRoundTrip(xs: seq<Stored>)
    requires EntriesOk(xs)
    ensures ReadStored(Area(xs)) == Ok(xs) <==> Aligned(xs)
  {
    if Aligned(xs) {
      ReadAligned(xs);
    } else {
      ReadMisaligned(xs);
    }
  }

  // ---------- in an image ----------

  /** `get_xattrs` for an inode without shared attributes: the entries after the header. */
  function GetXattrs(data: Bytes, sb: Superblock, ino: Inode): Result<Option<Bytes>, ReadError> {
    if XattrLen(ino.xattrCount) == 0 then Ok(None) else
    var offset := RawInodeOffset(sb, ino.diskId) + InodeSize(ino);
    match Slice(data, offset, offset + XattrLen(ino.xattrCount))
    case None => Err(Oob)
    case Some(area) => if |area| < XATTR_HEADER_SIZE then Err(BadConversion) else Ok(Some(area[XATTR_HEADER_SIZE..]))
  }

  /** The stored attributes of an inode. */
  function StoredOf(data: Bytes, sb: Superblock, ino: Inode): Result<seq<Stored>, ReadError> {
    match GetXattrs(data, sb, ino)
    case Err(e) => Err(e)
    case Ok(None) => Ok([])
    case Ok(Some(area)) => ReadStored(area)
  }

  /** Every key with its prefix again, or the first error. */
  function RestoreAll(xs: seq<Stored>): Result<seq<Xattr>, ReadError> {
    if xs == [] then Ok([])
    else
      match Restore(xs[0])
      case Err(e) => Err(e)
      case Ok(x) =>
        match RestoreAll(xs[1..])
        case Err(e) => Err(e)
        case Ok(rest) => Ok([x] + rest)
  }

  /** The attributes of an inode as they were given. */
  function AttributesOf(data: Bytes, sb: Superblock, ino: Inode): Result<seq<Xattr>, ReadError> {
    match StoredOf(data, sb, ino)
    case Err(e) => Err(e)
    case Ok(xs) => RestoreAll(xs)
  }

  lemma {:induction false} RestoreStored(xs: seq<Xattr>)
    ensures RestoreAll(StoreAll(xs)) == Ok(xs)
  {
    hide Restore, Store;
    if xs != [] {
      KeyRoundTrip(xs[0]);
      RestoreStored(xs[1..]);
      assert StoreAll(xs)[1..] == StoreAll(xs[1..]);
      assert xs == [xs[0]] + xs[1..];
    }
  }

  /** Two attributes with a payload of one byte each: reading fails. */
  lemma MisalignedExample(x: Stored, y: Stored)
    requires EntryOk(x) && EntryOk(y) && PayloadLen(x) == PayloadLen(y) == 1
    ensures ReadStored(Area([x, y])).Err?
  {
    var xs := [x, y];
    assert xs[1..] == [y] && [y][1..] == [];
    EntriesStep(xs);
    EntriesStep([y]);
    var rest := AfterFirst(xs);
    NextOfEntry(x, rest);
    assert |rest| == 7;
    NoPayloadLeft(rest[3..]);
  }

  /** A bare entry header has no room for the rounded payload. */
  lemma NoPayloadLeft(data: Bytes)
    requires |data| == 4
    ensures NextXattr(data).Err?
  {
  }
}
