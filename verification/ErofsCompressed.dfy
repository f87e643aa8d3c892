/**
 Reading a compressed file (peerofs/src/disk.rs): the walk over the table of logical clusters, each
 head giving the bytes from its own logical address up to the next head's.
 */
module ErofsCompressed {
  import opened Bytes
  import opened ErofsImage

  datatype ClusterType = Plain | Head1 | NonHead | Head2

  /** One table entry; the word is a block address, or two distances of 16 bits for a non-head. */
  datatype Cluster = Cluster(typ: ClusterType, offset: u16, word: u32) {
    /** `delta()[1]`: how far the next head is. */
    function Ahead(): nat {
      word / 0x1_0000
    }
  }

  datatype WalkError = OutOfBounds | Underflow | Malformed | Head2NotSupported | DecompressFailed

  /** A decompressor for a block and the number of bytes wanted. */
  type Decompressor = (Bytes, nat) -> Option<Bytes>

  datatype Image = Image(data: Bytes, blockSize: nat, blockLen: nat, fileSize: nat, decompress: Decompressor)

  /** The logical address of an entry. */
  function Address(table: seq<Cluster>, i: nat, blockLen: nat): nat
    requires i < |table|
  {
    i * blockLen + table[i].offset
  }

  /** `(j - i) * block_len + next - cur`, or an error where that is negative. */
  function Distance(table: seq<Cluster>, i: nat, j: nat, blockLen: nat): (r: Result<nat, WalkError>)
    requires i < j < |table|
    ensures r.Ok? ==> Address(table, i, blockLen) + r.value == Address(table, j, blockLen)
    ensures r.Ok? <==> Address(table, i, blockLen) <= Address(table, j, blockLen)
    ensures table[i].offset <= blockLen ==> r.Ok?
  {
    Spread(i, j, blockLen);
    var len := (j - i) * blockLen + table[j].offset - table[i].offset;
    if len < 0 then Err(Underflow) else Ok(len)
  }

  lemma Spread(i: nat, j: nat, n: nat)
    requires i < j
    ensures j * n == i * n + (j - i) * n && (j - i) * n >= n
  {
    Distributes(i, j - i, n);
    AtLeastOne(j - i, n);
  }

  lemma Distributes(a: nat, b: nat, n: nat)
    ensures (a + b) * n == a * n + b * n
  {
  }

  lemma AtLeastOne(a: nat, n: nat)
    requires a >= 1
    ensures a * n >= n
  {
    Distributes(1, a - 1, n);
  }

  /** The entry the head at `i` gives for the next head, from the distance in the entry after it. */
  function Following(table: seq<Cluster>, i: nat): nat
    requires i + 1 < |table|
  {
    if table[i + 1].typ.NonHead? then i + 1 + table[i + 1].Ahead() else i + 1
  }

  /**
   `pcluster_len`: the next head and the bytes up to it; no next head when the table ends first. The next
   head always lies further on, and the length is the difference of the two logical addresses. It fails
   exactly if there is no entry after the head, the next head lies beyond the table's end, or addresses go back.
   */
  function ClusterLen(table: seq<Cluster>, i: nat, blockLen: nat,
                      fileSize: nat): (r: Result<(Option<nat>, nat), WalkError>)
    requires i < |table|
    ensures r.Ok? && r.value.0.Some? ==>
      var j := r.value.0.value;
      i < j < |table| && Address(table, i, blockLen) + r.value.1 == Address(table, j, blockLen)
    ensures r.Ok? && r.value.0.None? ==> Address(table, i, blockLen) + r.value.1 == fileSize
    ensures r.Ok? <==>
      && i + 1 < |table| && Following(table, i) <= |table|
      && Address(table, i, blockLen)
         <= if Following(table, i) < |table| then Address(table, Following(table, i), blockLen) else fileSize
    ensures r.Ok? ==> r.value.0 == if Following(table, i) < |table| then Some(Following(table, i)) else None
  {
    if i + 1 >= |table| then Err(OutOfBounds)
    else
      var next := table[i + 1];
      var j := if next.typ.NonHead? then i + 1 + next.Ahead() else i + 1;
      if j < |table| then
        match Distance(table, i, j, blockLen)
        case Err(e) => Err(e)
        case Ok(len) => Ok((Some(j), len))
      else if j > |table| then Err(OutOfBounds)
      else if Address(table, i, blockLen) > fileSize then Err(Underflow)
      else Ok((None, fileSize - Address(table, i, blockLen)))
  }

  // ---------- what each head stands for ----------

  /** The bytes written for the head at `i`. */
  function Contents(img: Image, table: seq<Cluster>, i: nat): Result<Bytes, WalkError>
    requires i < |table|
  {
    var begin := img.blockSize * table[i].word;
    match table[i].typ
    case Head1 =>
      (match Slice(img.data, begin, begin + img.blockLen)
       case None => Err(OutOfBounds)
       case Some(block) =>
         match ClusterLen(table, i, img.blockLen, img.fileSize)
         case Err(e) => Err(e)
         case Ok((_, len)) =>
           match img.decompress(block, len)
           case None => Err(DecompressFailed)
           case Some(bytes) => Ok(bytes))
    case Plain =>
      if i + 1 >= |table| then Err(OutOfBounds) else
      (match Distance(table, i, i + 1, img.blockLen)
       case Err(e) => Err(e)
       case Ok(len) =>
         match Slice(img.data, begin, begin + len)
         case None => Err(OutOfBounds)
         case Some(bytes) => Ok(bytes))
    case Head2 => Err(Head2NotSupported)
    case NonHead => Err(Malformed)
  }

  /** Where the walk goes on after the head at `i`. */
  function NextOf(img: Image, table: seq<Cluster>, i: nat): (next: Option<nat>)
    requires i < |table| && Contents(img, table, i).Ok?
    ensures next.Some? ==> i < next.value < |table|
  {
    if table[i].typ.Head1? then ClusterLen(table, i, img.blockLen, img.fileSize).value.0 else Some(i + 1)
  }

  /** The bytes from the head at `i` on, or the error that ends the walk. */
  function Walk(img: Image, table: seq<Cluster>, i: nat): Result<Bytes, WalkError>
    requires i < |table|
    decreases |table| - i, 0
  {
    if EndMarker(table[i]) then (if i + 1 == |table| then Ok([]) else Err(Malformed))
    else
      match Contents(img, table, i)
      case Err(e) => Err(e)
      case Ok(bytes) => Behind(bytes, WalkOn(img, table, NextOf(img, table, i)))
  }

  function WalkOn(img: Image, table: seq<Cluster>, next: Option<nat>): Result<Bytes, WalkError>
    requires next.Some? ==> next.value < |table|
    decreases if next.Some? then |table| - next.value else 0, 1
  {
    if next.None? then Ok([]) else Walk(img, table, next.value)
  }

  function Behind(bytes: Bytes, r: Result<Bytes, WalkError>): Result<Bytes, WalkError> {
    if r.Ok? then Ok(bytes + r.value) else r
  }

  lemma BehindJoins(a: Bytes, b: Bytes, r: Result<Bytes, WalkError>)
    ensures Behind([], r) == r && Behind(a, Behind(b, r)) == Behind(a + b, r)
  {
    if r.Ok? { assert [] + r.value == r.value && a + (b + r.value) == a + b + r.value; }
  }

  predicate EndMarker(c: Cluster) {
    c.typ.Plain? && c.word == 0
  }

  /** The decompressor returns as many bytes as were asked for, whenever it returns any. */
  ghost predicate ExactLengths(d: Decompressor) {
    forall block, n :: d(block, n).Some? ==> |d(block, n).value| == n
  }

  /** Bytes written for one head. */
  datatype Piece = Piece(head: nat, bytes: Bytes)

  function Joined(pieces: seq<Piece>): Bytes {
    if pieces == [] then [] else Joined(pieces[..|pieces| - 1]) + pieces[|pieces| - 1].bytes
  }

  /** Each piece is the contents of its head and starts at its head's logical address. */
  ghost predicate InPlace(img: Image, table: seq<Cluster>, pieces: seq<Piece>) {
    forall k :: 0 <= k < |pieces| ==> PieceInPlace(img, table, pieces, k)
  }

  ghost predicate PieceInPlace(img: Image, table: seq<Cluster>, pieces: seq<Piece>, k: nat)
    requires k < |pieces|
  {
    var p := pieces[k];
    && p.head < |table| && Contents(img, table, p.head) == Ok(p.bytes)
    && |Joined(pieces[..k])| + Address(table, 0, img.blockLen) == Address(table, p.head, img.blockLen)
    && (k > 0 ==> pieces[k - 1].head < p.head)
  }

  lemma {:induction false} InPlaceSnoc(img: Image, table: seq<Cluster>, pieces: seq<Piece>, p: Piece)
    requires InPlace(img, table, pieces) && p.head < |table| && Contents(img, table, p.head) == Ok(p.bytes)
    requires |Joined(pieces)| + Address(table, 0, img.blockLen) == Address(table, p.head, img.blockLen)
    requires pieces != [] ==> pieces[|pieces| - 1].head < p.head
    ensures InPlace(img, table, pieces + [p]) && Joined(pieces + [p]) == Joined(pieces) + p.bytes
  {
    hide Contents, Address;
    var all := pieces + [p];
    assert all[..|all| - 1] == pieces;
    forall k | 0 <= k < |all| ensures PieceInPlace(img, table, all, k) {
      if k < |pieces| {
        assert PieceInPlace(img, table, pieces, k);
        assert all[..k] == pieces[..k];
      }
    }
  }

  /** The length of a piece is the distance to where the walk goes on. */
  lemma PieceLength(img: Image, table: seq<Cluster>, i: nat)
    requires ExactLengths(img.decompress) && i < |table| && Contents(img, table, i).Ok?
    ensures table[i].typ.Plain? ==>
      && i + 1 < |table|
      && Address(table, i, img.blockLen) + |Contents(img, table, i).value| == Address(table, i + 1, img.blockLen)
    ensures table[i].typ.Head1? ==>
      var len := ClusterLen(table, i, img.blockLen, img.fileSize);
      len.Ok? && |Contents(img, table, i).value| == len.value.1
  {
    hide Address, Following;
  }

  /**
   `get_compressed_data`. The index rises with every step, so the walk ends on every table. With a
   decompressor of exact lengths each piece stands at its head's logical address, and together they reach
   from the first entry's address to the end marker's, or to the file size where no head follows.
   */
  method ReadCompressed(img: Image, table: seq<Cluster>)
    returns (r: Result<(), WalkError>, written: Bytes, ghost pieces: seq<Piece>, ghost end: nat)
    ensures written == Joined(pieces)
    ensures table == [] ==> r == Ok(()) && written == []
    ensures table != [] && r.Ok? ==> Walk(img, table, 0) == Ok(written)
    ensures table != [] && r.Err? ==> Walk(img, table, 0) == Err(r.error)
    ensures ExactLengths(img.decompress) && table != [] ==> InPlace(img, table, pieces)
    ensures ExactLengths(img.decompress) && table != [] && r.Ok? ==>
      && |written| + Address(table, 0, img.blockLen) == end
      && (end == img.fileSize || (EndMarker(table[|table| - 1]) && end == Address(table, |table| - 1, img.blockLen)))
  {
    hide Contents, Address, ClusterLen, Joined, InPlace, ExactLengths, NextOf;
    written, pieces, end := [], [], 0;
    NoPieces(img, table);
    if table == [] { return Ok(()), written, pieces, end; }
    var next := Some(0);
    end := Address(table, 0, img.blockLen);
    BehindJoins([], [], Walk(img, table, 0));
    while next.Some?
      invariant written == Joined(pieces)
      invariant ExactLengths(img.decompress) ==> InPlace(img, table, pieces)
      invariant ExactLengths(img.decompress) ==> |written| + Address(table, 0, img.blockLen) == end
      invariant next.Some? ==> next.value < |table|
      invariant Walk(img, table, 0) == Behind(written, WalkOn(img, table, next))
      invariant next.Some? && ExactLengths(img.decompress) ==> end == Address(table, next.value, img.blockLen)
      invariant next.Some? && pieces != [] ==> pieces[|pieces| - 1].head < next.value
      invariant next.None? && ExactLengths(img.decompress) ==> end == img.fileSize
      decreases if next.Some? then |table| - next.value else 0
    {
      var i := next.value;
      if EndMarker(table[i]) {
        assert written + [] == written;
        return if i + 1 == |table| then Ok(()) else Err(Malformed), written, pieces, end;
      }
      var bytes := Contents(img, table, i);
      if bytes.Err? { return Err(bytes.error), written, pieces, end; }
      ghost var begin := end;
      next, end := After(img, table, i, bytes.value, begin);
      BehindJoins(written, bytes.value, WalkOn(img, table, next));
      if ExactLengths(img.decompress) {
        InPlaceSnoc(img, table, pieces, Piece(i, bytes.value));
      }
      JoinedSnoc(pieces, Piece(i, bytes.value));
      written := written + bytes.value;
      pieces := pieces + [Piece(i, bytes.value)];
    }
    assert written + [] == written;
    return Ok(()), written, pieces, end;
  }

  /** The choice of the next head. */
  method After(img: Image, table: seq<Cluster>, i: nat, bytes: Bytes, ghost begin: nat)
    returns (next: Option<nat>, ghost end: nat)
    requires i < |table| && Contents(img, table, i) == Ok(bytes)
    ensures next == NextOf(img, table, i)
    ensures end == begin + |bytes|
    ensures ExactLengths(img.decompress) && begin == Address(table, i, img.blockLen) ==>
      if next.Some? then end == Address(table, next.value, img.blockLen) else end == img.fileSize
  {
    hide Address, ExactLengths;
    end := begin + |bytes|;
    if ExactLengths(img.decompress) { PieceLength(img, table, i); }
    if table[i].typ.Head1? {
      next := ClusterLen(table, i, img.blockLen, img.fileSize).value.0;
    } else {
      next := Some(i + 1);
    }
  }

  lemma NoPieces(img: Image, table: seq<Cluster>)
    ensures Joined([]) == [] && InPlace(img, table, [])
  {
  }

  lemma JoinedSnoc(pieces: seq<Piece>, p: Piece)
    ensures Joined(pieces + [p]) == Joined(pieces) + p.bytes
  {
    assert (pieces + [p])[..|pieces|] == pieces;
  }

  /** A well-formed table: it starts at address 0, and an end marker stands at the file size. */
  predicate WellFormed(img: Image, table: seq<Cluster>) {
    && table != [] && table[0].offset == 0
    && (EndMarker(table[|table| - 1]) ==> Address(table, |table| - 1, img.blockLen) == img.fileSize)
  }

  /** On a well-formed table a successful read has exactly the file's size. */
  method ReadWhole(img: Image, table: seq<Cluster>) returns (r: Result<(), WalkError>, written: Bytes)
    ensures WellFormed(img, table) && ExactLengths(img.decompress) && r.Ok? ==> |written| == img.fileSize
  {
    hide ExactLengths, InPlace, Joined;
    ghost var pieces, end;
    r, written, pieces, end := ReadCompressed(img, table);
  }

  // ---------- what was compressed comes back ----------

  /** A part of a file and the block it is stored at: compressed to one block, or as it is. */
  datatype Chunk = Packed(bytes: Bytes, word: u32) | Raw(bytes: Bytes, word: u32)

  type Compressor = Bytes -> Bytes

  /** The image holds the chunk where the table entry says. */
  predicate StoredAt(img: Image, compress: Compressor, c: Cluster, chunk: Chunk) {
    && c.word == chunk.word
    && match chunk
       case Packed(bytes, word) =>
         c.typ.Head1? && |compress(bytes)| == img.blockLen && Has(img.data, img.blockSize * word, compress(bytes))
       case Raw(bytes, word) => c.typ.Plain? && word != 0 && Has(img.data, img.blockSize * word, bytes)
  }

  /** The next head by the format: the next entry, or as far ahead as an entry that is no head says. */
  function NextHead(table: seq<Cluster>, i: nat, chunk: Chunk): nat {
    if chunk.Packed? && i + 1 < |table| && table[i + 1].typ.NonHead? then i + 1 + table[i + 1].Ahead() else i + 1
  }

  /** A packed chunk can be the last of the table when an entry that is no head follows. */
  predicate MayEnd(table: seq<Cluster>, i: nat, chunk: Chunk) {
    chunk.Packed? && i + 1 < |table| && table[i + 1].typ.NonHead?
  }

  /** The table lists the chunks from the entry `i` on, each reaching up to the next head's logical address. */
  predicate Listed(img: Image, compress: Compressor, table: seq<Cluster>, chunks: seq<Chunk>, i: nat)
    decreases |chunks|
  {
    if chunks == [] then i == |table| || (i + 1 == |table| && EndMarker(table[i]))
    else
      var chunk, j := chunks[0], NextHead(table, i, chunks[0]);
      && i < |table| && StoredAt(img, compress, table[i], chunk)
      && (j < |table| || (j == |table| && MayEnd(table, i, chunk)))
      && Address(table, i, img.blockLen) + |chunk.bytes|
         == (if j < |table| then Address(table, j, img.blockLen) else img.fileSize)
      && Listed(img, compress, table, chunks[1..], j)
  }

  function AllBytes(chunks: seq<Chunk>): Bytes {
    if chunks == [] then [] else chunks[0].bytes + AllBytes(chunks[1..])
  }

  /** The decompressor undoes the compressor. */
  ghost predicate Undoes(d: Decompressor, compress: Compressor) {
    forall x :: d(compress(x), |x|) == Some(x)
  }

  lemma ChunkContents(img: Image, compress: Compressor, table: seq<Cluster>, chunks: seq<Chunk>, i: nat)
    requires Undoes(img.decompress, compress) && chunks != [] && Listed(img, compress, table, chunks, i)
    ensures !EndMarker(table[i]) && Contents(img, table, i) == Ok(chunks[0].bytes)
    ensures var j := NextHead(table, i, chunks[0]);
      NextOf(img, table, i) == if j < |table| then Some(j) else None
  {
    hide Address, Contents, ClusterLen, Distance, Has;
    var chunk, j := chunks[0], NextHead(table, i, chunks[0]);
    Ends(table[i], chunk);
    if chunk.Packed? {
      PackedLen(img, table, i, j, |chunk.bytes|);
      PackedContents(img, compress, table, i, chunk.bytes);
    } else {
      DistanceIs(table, i, j, img.blockLen, |chunk.bytes|);
      RawContents(img, table, i, chunk.bytes);
    }
  }

  lemma HeldSlice(data: Bytes, begin: nat, bytes: Bytes)
    requires Has(data, begin, bytes)
    ensures Slice(data, begin, begin + |bytes|) == Some(bytes)
  {
  }

  lemma PackedContents(img: Image, compress: Compressor, table: seq<Cluster>, i: nat, x: Bytes)
    requires Undoes(img.decompress, compress) && i < |table| && table[i].typ.Head1? && |compress(x)| == img.blockLen
    requires Has(img.data, img.blockSize * table[i].word, compress(x))
    requires var len := ClusterLen(table, i, img.blockLen, img.fileSize); len.Ok? && len.value.1 == |x|
    ensures Contents(img, table, i) == Ok(x)
  {
    hide Address, ClusterLen, Has, Slice, Following, Distance;
    HeldSlice(img.data, img.blockSize * table[i].word, compress(x));
    assert img.decompress(compress(x), |x|) == Some(x);
  }

  lemma RawContents(img: Image, table: seq<Cluster>, i: nat, x: Bytes)
    requires i + 1 < |table| && table[i].typ.Plain? && Has(img.data, img.blockSize * table[i].word, x)
    requires Distance(table, i, i + 1, img.blockLen) == Ok(|x|)
    ensures Contents(img, table, i) == Ok(x)
  {
    hide Address, Distance, Has, Slice;
    HeldSlice(img.data, img.blockSize * table[i].word, x);
  }

  lemma Ends(c: Cluster, chunk: Chunk)
    requires c.word == chunk.word && (chunk.Packed? ==> c.typ.Head1?) && (chunk.Raw? ==> chunk.word != 0)
    ensures !EndMarker(c)
  {
  }

  lemma DistanceIs(table: seq<Cluster>, i: nat, j: nat, blockLen: nat, len: nat)
    requires i < j < |table| && Address(table, i, blockLen) + len == Address(table, j, blockLen)
    ensures Distance(table, i, j, blockLen) == Ok(len)
  {
    Spread(i, j, blockLen);
  }

  lemma PackedLen(img: Image, table: seq<Cluster>, i: nat, j: nat, len: nat)
    requires i + 1 < |table| && i < j <= |table|
    requires j == if table[i + 1].typ.NonHead? then i + 1 + table[i + 1].Ahead() else i + 1
    requires Address(table, i, img.blockLen) + len
             == if j < |table| then Address(table, j, img.blockLen) else img.fileSize
    ensures ClusterLen(table, i, img.blockLen, img.fileSize) == Ok((if j < |table| then Some(j) else None, len))
  {
    hide Address;
    if j < |table| { DistanceIs(table, i, j, img.blockLen, len); }
  }

  /** Reading a table that lists chunks gives exactly the chunks, one after the other. */
  lemma {:induction false} CompressedRoundTrip(img: Image, compress: Compressor, table: seq<Cluster>,
                                               chunks: seq<Chunk>, i: nat)
    requires Undoes(img.decompress, compress) && i < |table| && Listed(img, compress, table, chunks, i)
    ensures Walk(img, table, i) == Ok(AllBytes(chunks))
    decreases |chunks|
  {
    hide Contents, NextOf, Address, Undoes, StoredAt;
    if chunks != [] {
      ChunkContents(img, compress, table, chunks, i);
      var j := NextHead(table, i, chunks[0]);
      if j < |table| {
        CompressedRoundTrip(img, compress, table, chunks[1..], j);
      } else {
        assert chunks[1..] == [];
      }
    }
  }

  /** `get_compressed_data` of a file stored as chunks: it succeeds and writes the chunks joined. */
  method ReadChunks(img: Image, table: seq<Cluster>, ghost compress: Compressor, ghost chunks: seq<Chunk>)
    returns (r: Result<(), WalkError>, written: Bytes)
    requires Undoes(img.decompress, compress) && Listed(img, compress, table, chunks, 0)
    ensures r.Ok? && written == AllBytes(chunks)
  {
    hide *;
    ghost var pieces, end;
    r, written, pieces, end := ReadCompressed(img, table);
    if table != [] {
      CompressedRoundTrip(img, compress, table, chunks, 0);
    } else {
      NothingListed(img, compress, table, chunks);
    }
  }

  lemma NothingListed(img: Image, compress: Compressor, table: seq<Cluster>, chunks: seq<Chunk>)
    requires table == [] && Listed(img, compress, table, chunks, 0)
    ensures AllBytes(chunks) == []
  {
  }

  /** Two heads at any two blocks, each compressed to its own block, and the end marker. */
  lemma TwoHeads(img: Image, compress: Compressor, x: Bytes, y: Bytes, v: u32, w: u32)
    requires 0 < img.blockLen <= |x| && |x| - img.blockLen < 0x1_0000
    requires 2 * img.blockLen <= |x| + |y| && |x| + |y| - 2 * img.blockLen < 0x1_0000
    requires |compress(x)| == img.blockLen && Has(img.data, img.blockSize * v, compress(x))
    requires |compress(y)| == img.blockLen && Has(img.data, img.blockSize * w, compress(y))
    ensures Listed(img, compress,
                   [Cluster(Head1, 0, v), Cluster(Head1, |x| - img.blockLen, w),
                    Cluster(ClusterType.Plain, |x| + |y| - 2 * img.blockLen, 0)],
                   [Packed(x, v), Packed(y, w)], 0)
  {
    var chunks := [Packed(x, v), Packed(y, w)];
    var table := [Cluster(Head1, 0, v), Cluster(Head1, |x| - img.blockLen, w),
                  Cluster(ClusterType.Plain, |x| + |y| - 2 * img.blockLen, 0)];
    assert chunks[1..] == [Packed(y, w)] && chunks[1..][1..] == [];
    assert Listed(img, compress, table, [], 2);
    assert Listed(img, compress, table, chunks[1..], 1);
  }
}
