/**
 The pearchive format (pearchive/src/lib.rs): messages that write a file, enter a directory or
 leave it, the reader of one message, and the packer.
 */
module Archive {
  import opened Bytes

  const MAX_DIR_DEPTH: nat := 32
  const MAX_NAME_LEN: nat := 255
  const FILE_TAG: byte := 1
  const DIR_TAG: byte := 2
  const POP_TAG: byte := 3

  datatype ArchiveError =
    | DirTooDeep | WriteFailed | BadName | BadSize | BadTag | EmptyStack | StackEmpty | ArchiveTruncated
    | OpenAt | MkdirAt

  datatype Message = FileOf(name: Bytes, data: Bytes) | DirOf(name: Bytes) | Pop

  function Encode(m: Message): (r: Bytes)
    ensures |r| >= 1
  {
    match m
    case FileOf(name, data) => [FILE_TAG] + name + [0] + ToLE(|data|, 4) + data
    case DirOf(name) => [DIR_TAG] + name + [0]
    case Pop => [POP_TAG]
  }

  function EncodeAll(ms: seq<Message>): Bytes {
    if ms == [] then [] else Encode(ms[0]) + EncodeAll(ms[1..])
  }

  lemma {:induction false} EncodeAppend(a: seq<Message>, b: seq<Message>)
    ensures EncodeAll(a + b) == EncodeAll(a) + EncodeAll(b)
  {
    hide Encode, EncodeAll;
    if a == [] {
      assert a + b == b;
      EncodeNone();
    } else {
      EncodeAppend(a[1..], b);
      EncodeFirst(a);
      EncodeFirst(a + b);
      assert (a + b)[0] == a[0] && (a + b)[1..] == a[1..] + b;
    }
  }

  lemma EncodeFirst(ms: seq<Message>)
    requires ms != []
    ensures EncodeAll(ms) == Encode(ms[0]) + EncodeAll(ms[1..])
  {
    hide Encode;
  }

  // ---------- reading one message ----------

  /** The first zero byte at index `i` or later, but not beyond the longest name. */
  function NulFrom(data: Bytes, i: nat): (r: Option<nat>)
    requires i >= 1
    ensures r.Some? ==> i <= r.value <= MAX_NAME_LEN && r.value < |data| && data[r.value] == 0 && 0 !in data[i..r.value]
    decreases |data| - i
  {
    if i >= |data| || i > MAX_NAME_LEN then None
    else if data[i] == 0 then Some(i)
    else
      var r := NulFrom(data, i + 1);
      assert r.Some? ==> data[i..r.value] == [data[i]] + data[i + 1..r.value];
      r
  }

  /** `read_cstr`: the search starts at the second byte. */
  function ReadName(data: Bytes): (r: Result<(Bytes, Bytes), ArchiveError>)
    ensures r.Ok? ==> |r.value.1| < |data|
  {
    match NulFrom(data, 1)
    case None => Err(BadName)
    case Some(i) => Ok((data[..i], data[i + 1..]))
  }

  /** `read_le_u32` */
  function ReadSize(data: Bytes): Result<(nat, Bytes), ArchiveError> {
    if |data| < 4 then Err(BadSize) else Ok((FromLE(data[..4]), data[4..]))
  }

  function ReadFileBody(name: Bytes, data: Bytes): (r: Result<(Message, Bytes), ArchiveError>)
    ensures r.Ok? ==> |r.value.1| <= |data|
  {
    match ReadSize(data)
    case Err(e) => Err(e)
    case Ok((len, rest)) =>
      if len > |rest| then Err(ArchiveTruncated) else Ok((FileOf(name, rest[..len]), rest[len..]))
  }

  /** One message and what follows it; None at the end of the data. */
  function Next(data: Bytes): (r: Result<Option<(Message, Bytes)>, ArchiveError>)
    ensures r.Ok? && r.value.Some? ==> |r.value.value.1| < |data|
    ensures r.Ok? && r.value.None? <==> data == []
  {
    if data == [] then Ok(None)
    else if data[0] == POP_TAG then Ok(Some((Pop, data[1..])))
    else if data[0] != FILE_TAG && data[0] != DIR_TAG then Err(BadTag)
    else
      match ReadName(data[1..])
      case Err(e) => Err(e)
      case Ok((name, rest)) =>
        if data[0] == DIR_TAG then Ok(Some((DirOf(name), rest)))
        else
          match ReadFileBody(name, rest)
          case Err(e) => Err(e)
          case Ok(found) => Ok(Some(found))
  }

  /** Names that `read_cstr` returns: a zero byte is possible in first place only. */
  predicate ReadableName(name: Bytes) {
    1 <= |name| <= MAX_NAME_LEN && 0 !in name[1..]
  }

  predicate Readable(m: Message) {
    match m
    case FileOf(name, data) => ReadableName(name) && |data| < 0x1_0000_0000
    case DirOf(name) => ReadableName(name)
    case Pop => true
  }

  lemma {:induction false} NulFromIs(data: Bytes, i: nat, n: nat)
    requires 1 <= i <= n <= MAX_NAME_LEN && n < |data| && data[n] == 0 && 0 !in data[i..n]
    ensures NulFrom(data, i) == Some(n)
    decreases n - i
  {
    if i < n {
      assert data[i] == data[i..n][0] && data[i + 1..n] == data[i..n][1..];
      NulFromIs(data, i + 1, n);
    }
  }

  /** A written name comes back exactly if it is readable. */
  lemma NameRoundTrip(name: Bytes, rest: Bytes)
    ensures ReadName(name + [0] + rest) == Ok((name, rest)) <==> ReadableName(name)
  {
    var data := name + [0] + rest;
    if ReadableName(name) {
      assert data[1..|name|] == name[1..];
      NulFromIs(data, 1, |name|);
      assert data[..|name|] == name && data[|name| + 1..] == rest;
    }
    if ReadName(data).Ok? { NameMeansEncoded(data); }
  }

  lemma BodyRoundTrip(name: Bytes, data: Bytes, rest: Bytes)
    requires |data| < 0x1_0000_0000
    ensures ReadFileBody(name, ToLE(|data|, 4) + data + rest) == Ok((FileOf(name, data), rest))
  {
    WidthBounds();
    hide ToLE, FromLE, Pow256;
    var size, all := ToLE(|data|, 4), ToLE(|data|, 4) + data + rest;
    LERoundTrip(|data|, 4);
    assert all == size + (data + rest);
    CutAt(size, data + rest);
    CutAt(data, rest);
  }

  lemma CutAt(a: Bytes, b: Bytes)
    ensures (a + b)[..|a|] == a && (a + b)[|a|..] == b
  {
  }

  lemma FileTail(name: Bytes, size: Bytes, contents: Bytes, rest: Bytes)
    ensures ([FILE_TAG] + name + [0] + size + contents + rest)[1..] == name + [0] + (size + contents + rest)
  {
    assert [FILE_TAG] + name + [0] + size + contents + rest == [FILE_TAG] + (name + [0] + (size + contents + rest));
  }

  /** A readable message comes back from its encoding, whatever follows it. */
  lemma MessageRoundTrip(m: Message, rest: Bytes)
    requires Readable(m)
    ensures Next(Encode(m) + rest) == Ok(Some((m, rest)))
  {
    hide ReadName, ReadFileBody, ReadableName, ToLE;
    var data := Encode(m) + rest;
    match m
    case Pop => assert data[1..] == rest;
    case DirOf(name) =>
      assert data[1..] == name + [0] + rest;
      NameRoundTrip(name, rest);
    case FileOf(name, contents) =>
      var body := ToLE(|contents|, 4) + contents + rest;
      FileTail(name, ToLE(|contents|, 4), contents, rest);
      NameRoundTrip(name, body);
      BodyRoundTrip(name, contents, rest);
  }

  lemma DirJoin(tag: byte, name: Bytes, rest: Bytes)
    ensures [tag] + (name + [0] + rest) == [tag] + name + [0] + rest
  {
  }

  lemma FileJoin(name: Bytes, size: Bytes, contents: Bytes, rest: Bytes)
    ensures [FILE_TAG] + (name + [0] + (size + contents + rest)) == [FILE_TAG] + name + [0] + size + contents + rest
  {
  }

  lemma HeadAndTail(data: Bytes)
    requires data != []
    ensures data == [data[0]] + data[1..]
  {
  }

  /** What was read is what an encoding wrote. */
  lemma ReadMeansEncoded(data: Bytes)
    requires Next(data).Ok? && Next(data).value.Some?
    ensures var (m, rest) := Next(data).value.value; Readable(m) && data == Encode(m) + rest
  {
    hide ReadName, ReadFileBody, ReadableName, ToLE;
    if data[0] == POP_TAG {
      HeadAndTail(data);
    } else if data[0] == DIR_TAG {
      ReadDirMeans(data);
    } else {
      ReadFileMeans(data);
    }
  }

  lemma ReadDirMeans(data: Bytes)
    requires data != [] && data[0] == DIR_TAG && ReadName(data[1..]).Ok?
    ensures var (name, rest) := ReadName(data[1..]).value;
      ReadableName(name) && data == Encode(DirOf(name)) + rest
  {
    hide ReadName, ReadableName;
    var (name, rest) := ReadName(data[1..]).value;
    HeadAndTail(data);
    NameMeansEncoded(data[1..]);
    DirJoin(DIR_TAG, name, rest);
  }

  lemma ReadFileMeans(data: Bytes)
    requires data != [] && data[0] == FILE_TAG && ReadName(data[1..]).Ok?
    requires var (name, body) := ReadName(data[1..]).value; ReadFileBody(name, body).Ok?
    ensures var (name, body) := ReadName(data[1..]).value; var (m, rest) := ReadFileBody(name, body).value;
      Readable(m) && data == Encode(m) + rest
  {
    hide ReadName, ReadFileBody, ReadableName, ToLE;
    var (name, body) := ReadName(data[1..]).value;
    var (m, rest) := ReadFileBody(name, body).value;
    HeadAndTail(data);
    NameMeansEncoded(data[1..]);
    BodyMeansEncoded(name, body);
    FileJoin(name, ToLE(|m.data|, 4), m.data, rest);
  }

  lemma NameMeansEncoded(data: Bytes)
    requires ReadName(data).Ok?
    ensures var (name, rest) := ReadName(data).value; ReadableName(name) && data == name + [0] + rest
  {
    var i := NulFrom(data, 1).value;
    assert data[..i][1..] == data[1..i];
    assert data == data[..i] + [data[i]] + data[i + 1..];
  }

  lemma BodyMeansEncoded(name: Bytes, data: Bytes)
    requires ReadFileBody(name, data).Ok?
    ensures var (m, rest) := ReadFileBody(name, data).value;
      m.FileOf? && m.name == name && |m.data| < 0x1_0000_0000 && data == ToLE(|m.data|, 4) + m.data + rest
  {
    var (len, body) := ReadSize(data).value;
    WidthBounds();
    FromLEBound(data[..4]);
    LEUnique(data[..4]);
    assert body == body[..len] + body[len..];
    assert data == data[..4] + data[4..];
  }

  // ---------- packing ----------

  /** `PackMemToWriter`, and `PackFsToWriter` once a file's bytes are read. */
  class Packer {
    var writer: Bytes
    var depth: nat

    constructor ()
      ensures writer == [] && depth == 0
    {
      writer, depth := [], 0;
    }

    method File(name: Bytes, data: Bytes) returns (r: Result<(), ArchiveError>)
      modifies this`writer
      ensures r.Ok? <==> |data| < 0x1_0000_0000
      ensures r.Ok? ==> writer == old(writer) + Encode(FileOf(name, data))
    {
      hide ToLE;
      if |data| >= 0x1_0000_0000 { return Err(WriteFailed); }
      ghost var w, size := writer, ToLE(|data|, 4);
      writer := writer + [FILE_TAG];
      writer := writer + name;
      writer := writer + [0];
      assert writer == w + ([FILE_TAG] + name + [0]);
      writer := writer + ToLE(|data|, 4);
      writer := writer + data;
      assert writer == w + ([FILE_TAG] + name + [0] + size + data);
      return Ok(());
    }

    method Dir(name: Bytes) returns (r: Result<(), ArchiveError>)
      modifies this
      ensures r.Ok? <==> old(depth) <= MAX_DIR_DEPTH
      ensures r.Ok? ==> depth == old(depth) + 1 && writer == old(writer) + Encode(DirOf(name))
    {
      if depth > MAX_DIR_DEPTH { return Err(DirTooDeep); }
      depth := depth + 1;
      writer := writer + [DIR_TAG];
      writer := writer + name;
      writer := writer + [0];
      return Ok(());
    }

    method Leave() returns (r: Result<(), ArchiveError>)
      modifies this
      ensures r.Ok? <==> old(depth) > 0
      ensures r.Ok? ==> depth == old(depth) - 1 && writer == old(writer) + Encode(Pop)
    {
      if depth == 0 { return Err(EmptyStack); }
      depth := depth - 1;
      writer := writer + [POP_TAG];
      return Ok(());
    }

    /** `visit_dirc_rec`: the entries of a directory in order. */
    method PackForest(forest: seq<Tree>) returns (r: Result<(), ArchiveError>)
      modifies this
      ensures r.Ok? <==> Packable(forest, |forest|, old(depth))
      ensures r.Ok? ==> depth == old(depth) && writer == old(writer) + EncodeAll(Messages(forest, |forest|))
      decreases forest, 1
    {
      hide Encode, TreeMessages, EncodeAll;
      var k := 0;
      EncodeNone();
      while k < |forest|
        invariant 0 <= k <= |forest| && depth == old(depth)
        invariant Packable(forest, k, old(depth))
        invariant writer == old(writer) + EncodeAll(Messages(forest, k))
      {
        r := PackTree(forest[k]);
        PackableStep(forest, k, |forest|, old(depth));
        if r.Err? { return; }
        EncodeAppend(Messages(forest, k), TreeMessages(forest[k]));
        k := k + 1;
      }
      return Ok(());
    }

    /** One entry; a directory is entered, packed and left. */
    method PackTree(t: Tree) returns (r: Result<(), ArchiveError>)
      modifies this
      ensures r.Ok? <==> TreePackable(t, old(depth))
      ensures r.Ok? ==> depth == old(depth) && writer == old(writer) + EncodeAll(TreeMessages(t))
      decreases t, 0
    {
      hide Encode, Messages, EncodeAll;
      EncodeTree(t);
      match t
      case Leaf(name, data) =>
        r := File(name, data);
      case Branch(name, kids) =>
        r := Dir(name);
        if r.Err? { return; }
        r := PackForest(kids);
        if r.Err? { return; }
        r := Leave();
    }
  }

  /** A directory tree with the entries of each directory in the order they are listed. */
  datatype Tree = Leaf(name: Bytes, data: Bytes) | Branch(name: Bytes, kids: seq<Tree>)

  function TreeMessages(t: Tree): seq<Message> {
    match t
    case Leaf(name, data) => [FileOf(name, data)]
    case Branch(name, kids) => [DirOf(name)] + Messages(kids, |kids|) + [Pop]
  }

  /** The messages of the first `n` entries. */
  function Messages(forest: seq<Tree>, n: nat): seq<Message>
    requires n <= |forest|
    decreases forest, n
  {
    if n == 0 then [] else Messages(forest, n - 1) + TreeMessages(forest[n - 1])
  }

  /** Files of at most 2^32 - 1 bytes, directories nested at most 33 deep. */
  predicate TreePackable(t: Tree, depth: nat) {
    match t
    case Leaf(_, data) => |data| < 0x1_0000_0000
    case Branch(_, kids) => depth <= MAX_DIR_DEPTH && Packable(kids, |kids|, depth + 1)
  }

  predicate Packable(forest: seq<Tree>, n: nat, depth: nat)
    requires n <= |forest|
    decreases forest, n
  {
    n == 0 || (Packable(forest, n - 1, depth) && TreePackable(forest[n - 1], depth))
  }

  lemma {:induction false} PackableStep(forest: seq<Tree>, k: nat, n: nat, depth: nat)
    requires k < n <= |forest|
    ensures Packable(forest, n, depth) ==> Packable(forest, k, depth) && TreePackable(forest[k], depth)
    decreases n
  {
    if k < n - 1 { PackableStep(forest, k, n - 1, depth); }
  }

  lemma EncodeNone()
    ensures EncodeAll([]) == []
  {
  }

  lemma EncodeTree(t: Tree)
    ensures t.Leaf? ==> EncodeAll(TreeMessages(t)) == Encode(FileOf(t.name, t.data))
    ensures t.Branch? ==> EncodeAll(TreeMessages(t))
                          == Encode(DirOf(t.name)) + EncodeAll(Messages(t.kids, |t.kids|)) + Encode(Pop)
  {
    hide Encode, Messages;
    match t
    case Leaf(name, data) => EncodeOne(FileOf(name, data));
    case Branch(name, kids) =>
      var inner := Messages(kids, |kids|);
      EncodeOne(DirOf(name));
      EncodeOne(Pop);
      EncodeAppend([DirOf(name)], inner);
      EncodeAppend([DirOf(name)] + inner, [Pop]);
  }

  lemma EncodeOne(m: Message)
    ensures EncodeAll([m]) == Encode(m)
  {
    assert [m][1..] == [];
  }
}
