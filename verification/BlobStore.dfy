/**
 The content-addressed blob store (peoci/src/ocidist_cache.rs, peoci/src/blobcache.rs,
 peoci/src/ocidist.rs): fetching to a temporary name, checking, renaming, caching, evicting,
 and loading what is on disk after a restart, as steps that may interleave in any way.
 */
module BlobStore {
  import opened Bytes

  // ---------- keys ----------

  type Key = string

  /** `BlobKey::new`: no dot, no slash, and something on both sides of the first colon. */
  predicate ValidKey(s: Key) {
    '.' !in s && '/' !in s && exists i :: 0 < i < |s| - 1 && FirstColon(s, i)
  }

  predicate FirstColon(s: Key, i: nat) {
    i < |s| && s[i] == ':' && ':' !in s[..i]
  }

  /** `with_tmp_suffix` */
  function TmpKey(k: Key): Key {
    k + "_tmp"
  }

  /** `as_path`: the first colon becomes the directory separator. */
  function PathOf(k: Key): string {
    if k == "" then "" else if k[0] == ':' then "/" + k[1..] else [k[0]] + PathOf(k[1..])
  }

  /** `from_cstr_parts` for a directory and a file in it, before the check. */
  function KeyOf(dir: string, file: string): Key {
    dir + ":" + file
  }

  lemma {:induction false} PathSplits(k: Key, i: nat)
    requires FirstColon(k, i)
    ensures PathOf(k) == k[..i] + "/" + k[i + 1..]
  {
    if i == 0 {
      assert k[..0] == "";
    } else {
      assert k[0] == k[..i][0] && k[1..][..i - 1] == k[..i][1..];
      PathSplits(k[1..], i - 1);
      assert k[..i] == [k[0]] + k[1..][..i - 1] && k[1..][i..] == k[i + 1..];
    }
  }

  /** What is on disk under a key's path is found again under that key. */
  lemma DiskRoundTrip(k: Key, i: nat)
    requires FirstColon(k, i)
    ensures PathOf(k) == k[..i] + "/" + k[i + 1..] && KeyOf(k[..i], k[i + 1..]) == k
  {
    PathSplits(k, i);
    assert k == k[..i] + [k[i]] + k[i + 1..];
  }

  lemma FirstSlash(k: Key, i: nat)
    requires FirstColon(k, i) && '/' !in k
    ensures i < |PathOf(k)| == |k| && PathOf(k)[i] == '/' && forall m :: 0 <= m < i ==> PathOf(k)[m] != '/'
  {
    PathSplits(k, i);
    forall m | 0 <= m < i ensures PathOf(k)[m] != '/' {
      assert PathOf(k)[m] == k[m];
    }
  }

  /** Different keys have different files. */
  lemma PathsDiffer(a: Key, b: Key)
    requires ValidKey(a) && ValidKey(b) && PathOf(a) == PathOf(b)
    ensures a == b
  {
    var i :| 0 < i < |a| - 1 && FirstColon(a, i);
    var j :| 0 < j < |b| - 1 && FirstColon(b, j);
    FirstSlash(a, i);
    FirstSlash(b, j);
    DiskRoundTrip(a, i);
    DiskRoundTrip(b, j);
    var p := PathOf(a);
    assert p[..i] == a[..i] && p[..i] == b[..i];
    assert p[i + 1..] == a[i + 1..] && p[i + 1..] == b[i + 1..];
  }

  // ---------- digests ----------

  const HEX: string := "0123456789abcdef"
  const SHA256: string := "sha256:"

  function Digit(n: nat): char
    requires n < 16
  {
    HEX[n]
  }

  /** Two lower hex digits per byte. */
  function Hex(bs: Bytes): (r: string)
    ensures |r| == 2 * |bs|
  {
    if bs == [] then "" else [Digit(bs[0] / 16), Digit(bs[0] % 16)] + Hex(bs[1..])
  }

  lemma {:induction false} HexAt(bs: Bytes, i: nat)
    requires i < |bs|
    ensures Hex(bs)[2 * i] == Digit(bs[i] / 16) && Hex(bs)[2 * i + 1] == Digit(bs[i] % 16)
  {
    if i > 0 { HexAt(bs[1..], i - 1); }
  }

  /** `digest_eq`: comparing nibble by nibble without building the string. */
  method DigestEq(hex: string, digest: Bytes) returns (r: bool)
    ensures r <==> hex == Hex(digest)
  {
    hide Hex, Digit;
    if |hex| != 2 * |digest| { return false; }
    var i := 0;
    while i < |digest|
      invariant 0 <= i <= |digest| && forall j :: 0 <= j < 2 * i ==> hex[j] == Hex(digest)[j]
    {
      HexAt(digest, i);
      if Digit(digest[i] / 16) != hex[2 * i] || Digit(digest[i] % 16) != hex[2 * i + 1] { return false; }
      i := i + 1;
    }
    return true;
  }

  /** SHA-256, of which only the length of its result matters here. */
  type Hash = f: Bytes -> Bytes | forall x :: |f(x)| == 32 witness (x => Zeros(32))

  function DigestOf(hash: Hash, data: Bytes): Key {
    SHA256 + Hex(hash(data))
  }

  /** A key that can be a SHA-256 digest, by its form. */
  predicate IsDigest(k: Key) {
    |k| == 71 && SHA256 <= k
  }

  lemma DigestForm(hash: Hash, data: Bytes)
    ensures IsDigest(DigestOf(hash, data))
  {
  }

  lemma SplitDigest(k: Key, hex: string)
    requires SHA256 <= k
    ensures k == SHA256 + hex <==> k[|SHA256|..] == hex
  {
    assert k == SHA256 + k[|SHA256|..];
  }

  // ---------- downloading ----------

  datatype StoreError = NetworkFailed | StatusNotOk | SizeMismatch | DigestMismatch | AlgorithmNotHandled

  datatype Status = StatusOk | StatusNotFound | StatusOther

  /** All bytes of the chunks received before the connection fails, if it does. */
  function Received(chunks: seq<Option<Bytes>>, n: nat): Bytes
    requires n <= |chunks|
  {
    if n == 0 then []
    else if chunks[n - 1].None? then Received(chunks, n - 1)
    else Received(chunks, n - 1) + chunks[n - 1].value
  }

  /**
   `get_blob` of the registry client: the chunks are written as they come, and success is reported
   only for bytes of the described size and digest.
   */
  method FetchBlob(hash: Hash, status: Status, chunks: seq<Option<Bytes>>, digest: Key, size: nat)
    returns (r: Result<Option<nat>, StoreError>, written: Bytes)
    ensures r == Ok(None) <==> status.StatusNotFound?
    ensures (r.Ok? && r.value.Some?) <==>
      && status.StatusOk? && SHA256 <= digest && Complete(chunks)
      && |Received(chunks, |chunks|)| == size && digest == DigestOf(hash, Received(chunks, |chunks|))
    ensures r.Ok? && r.value.Some? ==> r.value.value == size == |written| && digest == DigestOf(hash, written)
  {
    hide Hex, Received, Complete;
    written := [];
    match status {
      case StatusOk =>
      case StatusNotFound => return Ok(None), written;
      case StatusOther => return Err(StatusNotOk), written;
    }
    if !(SHA256 <= digest) { return Err(AlgorithmNotHandled), written; }
    var len, hashed, complete;
    len, hashed, written, complete := ReceiveChunks(chunks);
    if !complete { return Err(NetworkFailed), written; }
    if size != len { return Err(SizeMismatch), written; }
    var same := DigestEq(digest[|SHA256|..], hash(hashed));
    SplitDigest(digest, Hex(hash(hashed)));
    if !same { return Err(DigestMismatch), written; }
    return Ok(Some(len)), written;
  }

  predicate Complete(chunks: seq<Option<Bytes>>) {
    forall i :: 0 <= i < |chunks| ==> chunks[i].Some?
  }

  /** The chunk loop: length, hasher input and written bytes stay in step. */
  method ReceiveChunks(chunks: seq<Option<Bytes>>) returns (len: nat, hashed: Bytes, written: Bytes, complete: bool)
    ensures written == hashed && len == |written| && (complete <==> Complete(chunks))
    ensures complete ==> written == Received(chunks, |chunks|)
  {
    len, hashed, written := 0, [], [];
    var i := 0;
    while i < |chunks|
      invariant 0 <= i <= |chunks| && forall j :: 0 <= j < i ==> chunks[j].Some?
      invariant written == hashed == Received(chunks, i) && len == |written|
    {
      if chunks[i].None? { return len, hashed, written, false; }
      var chunk := chunks[i].value;
      len := len + |chunk|;
      hashed := hashed + chunk;
      written := written + chunk;
      i := i + 1;
    }
    return len, hashed, written, true;
  }

  /** A descriptor's digest: with this algorithm it has 64 hex digits. */
  predicate Requestable(k: Key) {
    SHA256 <= k ==> IsDigest(k)
  }

  lemma TmpIsNoDigest(k: Key)
    requires Requestable(k)
    ensures !IsDigest(TmpKey(k))
  {
    var t := TmpKey(k);
    if |t| == 71 { assert k[..7] == t[..7]; }
  }

  // ---------- the store as steps ----------

  datatype Phase = Writing | Verified | Renamed

  /** A fetch under way: the described size, the inode opened for it, and how far it has got. */
  datatype Fetch = Fetch(size: nat, ino: nat, phase: Phase)

  /** A descriptor handed to a caller for a key and a size. */
  datatype Handle = Handle(key: Key, size: nat, ino: nat)

  datatype Store = Store(
    inodes: map<nat, Bytes>, names: map<Key, nat>, cache: map<Key, nat>,
    fetches: map<Key, Fetch>, handles: set<Handle>)

  datatype Step =
    | Start(key: Key, size: nat, ino: nat)
    | Chunk(key: Key, bytes: Bytes)
    | Check(key: Key)
    | Fail(key: Key)
    | Rename(key: Key)
    | Finish(key: Key)
    | Abandon(key: Key)
    | Hit(key: Key, size: nat)
    | Evict(key: Key)
    | Restart

  /** One step, or None where the step cannot happen. */
  function Apply(hash: Hash, s: Store, step: Step): Option<Store> {
    match step
    case Start(k, size, ino) => ApplyStart(s, k, size, ino)
    case Chunk(k, bytes) =>
      if k in s.fetches && s.fetches[k].phase.Writing? && s.fetches[k].ino in s.inodes then
        var ino := s.fetches[k].ino;
        Some(s.(inodes := s.inodes[ino := s.inodes[ino] + bytes]))
      else None
    case Check(k) =>
      if k in s.fetches && s.fetches[k].phase.Writing? && s.fetches[k].ino in s.inodes
         && |s.inodes[s.fetches[k].ino]| == s.fetches[k].size && k == DigestOf(hash, s.inodes[s.fetches[k].ino])
      then Some(Checked(s, k))
      else None
    case Fail(k) =>
      // the guard removes the temporary file
      if k in s.fetches && !s.fetches[k].phase.Renamed? then
        Some(s.(names := s.names - {TmpKey(k)}, fetches := s.fetches - {k}))
      else None
    case Rename(k) => ApplyRename(s, k)
    case Finish(k) =>
      if k in s.fetches && s.fetches[k].phase.Renamed? then Some(Finished(s, k)) else None
    case Abandon(k) =>
      // nobody waits for the descriptor: the file stays, nothing is cached
      if k in s.fetches && s.fetches[k].phase.Renamed? then Some(s.(fetches := s.fetches - {k})) else None
    case Hit(k, size) =>
      if k in s.cache && k in s.names && s.names[k] in s.inodes && |s.inodes[s.names[k]]| == size then
        Some(Opened(s, k, size))
      else None
    case Evict(k) => if k in s.cache then Some(Evicted(s, k)) else None
    case Restart => Some(Restarted(s))
  }

  /** Fetches are gone without cleaning up, and every file with a valid name is loaded, temporary ones too. */
  function Restarted(s: Store): Store {
    s.(fetches := map[],
       cache := map n | n in s.names && ValidKey(n) && s.names[n] in s.inodes :: |s.inodes[s.names[n]]|)
  }

  function Checked(s: Store, k: Key): Store
    requires k in s.fetches
  {
    s.(fetches := s.fetches[k := s.fetches[k].(phase := Verified)])
  }

  /** The fetch is cached and its descriptor handed on. */
  function Finished(s: Store, k: Key): Store
    requires k in s.fetches
  {
    var f := s.fetches[k];
    s.(cache := s.cache[k := f.size], fetches := s.fetches - {k}, handles := s.handles + {Handle(k, f.size, f.ino)})
  }

  /** The cached file is opened for another caller. */
  function Opened(s: Store, k: Key, size: nat): Store
    requires k in s.names
  {
    s.(handles := s.handles + {Handle(k, size, s.names[k])})
  }

  /** The entry leaves the cache and its file is unlinked. */
  function Evicted(s: Store, k: Key): Store {
    s.(cache := s.cache - {k}, names := s.names - {k})
  }

  /** Opening the temporary file; one fetch per key, and none for a cached key. */
  function ApplyStart(s: Store, k: Key, size: nat, ino: nat): Option<Store> {
    if k in s.cache || k in s.fetches || !Requestable(k) || !ValidKey(k) then None
    else if TmpKey(k) in s.names then Some(Truncated(s, k, size))
    else if ino in s.inodes then None
    else Some(Created(s, k, size, ino))
  }

  function Truncated(s: Store, k: Key, size: nat): Store
    requires TmpKey(k) in s.names
  {
    var ino := s.names[TmpKey(k)];
    s.(inodes := s.inodes[ino := []], fetches := s.fetches[k := Fetch(size, ino, Writing)])
  }

  function Created(s: Store, k: Key, size: nat, ino: nat): Store {
    s.(inodes := s.inodes[ino := []], names := s.names[TmpKey(k) := ino],
       fetches := s.fetches[k := Fetch(size, ino, Writing)])
  }

  /** Renaming to the final name; it fails when the temporary file is gone. */
  function ApplyRename(s: Store, k: Key): Option<Store> {
    if k in s.fetches && s.fetches[k].phase.Verified? then
      if TmpKey(k) in s.names then
        Some(s.(names := (s.names - {TmpKey(k)})[k := s.names[TmpKey(k)]],
                fetches := s.fetches[k := s.fetches[k].(phase := Renamed)]))
      else Some(s.(fetches := s.fetches - {k}))
    else None
  }

  // ---------- safety ----------

  /** The inode holds the bytes the key describes. */
  predicate Holds(hash: Hash, s: Store, k: Key, ino: nat) {
    ino in s.inodes && k == DigestOf(hash, s.inodes[ino])
  }

  /** A file under a digest's final name always holds bytes of that digest. */
  predicate FileSafe(hash: Hash, s: Store, k: Key) {
    k in s.names && IsDigest(k) ==> Holds(hash, s, k, s.names[k])
  }

  /** A cached digest has its file, of the cached size. */
  predicate CacheSafe(s: Store, k: Key) {
    k in s.cache && IsDigest(k) ==> k in s.names && s.names[k] in s.inodes && s.cache[k] == |s.inodes[s.names[k]]|
  }

  /** A descriptor handed out for a digest has the bytes of that digest and the size asked for. */
  predicate HandleSafe(hash: Hash, s: Store, h: Handle) {
    h in s.handles && IsDigest(h.key) ==> Holds(hash, s, h.key, h.ino) && |s.inodes[h.ino]| == h.size
  }

  ghost predicate Safe(hash: Hash, s: Store) {
    && (forall k :: FileSafe(hash, s, k)) && (forall k :: CacheSafe(s, k)) && (forall h :: HandleSafe(hash, s, h))
  }

  /** The name of a fetch's file: temporary until it is renamed. */
  function FetchName(k: Key, f: Fetch): Key {
    if f.phase.Renamed? then k else TmpKey(k)
  }

  /** A fetch under way: once checked, its inode holds the right bytes. */
  predicate FetchOk(hash: Hash, s: Store, k: Key) {
    k in s.fetches ==>
      var f := s.fetches[k];
      && f.ino in s.inodes && k !in s.cache && Requestable(k)
      && (!f.phase.Renamed? && TmpKey(k) in s.names ==> s.names[TmpKey(k)] == f.ino)
      && (f.phase.Renamed? ==> k in s.names && s.names[k] == f.ino)
      && (!f.phase.Writing? ==> Holds(hash, s, k, f.ino) && |s.inodes[f.ino]| == f.size)
  }

  /** What holds of each key. */
  predicate KeyOk(hash: Hash, s: Store, k: Key) {
    FileSafe(hash, s, k) && CacheSafe(s, k) && FetchOk(hash, s, k) && (k in s.names ==> s.names[k] in s.inodes)
  }

  /** Different keys have different inodes, as names and as fetches. */
  predicate Apart(s: Store, a: Key, b: Key) {
    && (a in s.names && b in s.names && s.names[a] == s.names[b] ==> a == b)
    && (a in s.fetches && b in s.fetches && s.fetches[a].ino == s.fetches[b].ino ==> a == b)
    && (a in s.fetches && b in s.names && s.names[b] == s.fetches[a].ino ==> b == FetchName(a, s.fetches[a]))
  }

  /** An inode handed out for a digest is written by no fetch and named by no other key. */
  predicate Sealed(s: Store, h: Handle, k: Key) {
    h in s.handles && IsDigest(h.key) ==>
      && (k in s.fetches ==> s.fetches[k].ino != h.ino)
      && (k in s.names && s.names[k] == h.ino ==> k == h.key)
  }

  ghost predicate Invariant(hash: Hash, s: Store) {
    && (forall k :: KeyOk(hash, s, k)) && (forall a, b :: Apart(s, a, b))
    && (forall h :: HandleSafe(hash, s, h)) && (forall h, k :: Sealed(s, h, k))
  }

  // ---------- every step keeps it ----------

  lemma TmpsDiffer(a: Key, b: Key)
    ensures TmpKey(a) == TmpKey(b) ==> a == b
  {
    if TmpKey(a) == TmpKey(b) {
      assert |a| == |b| && TmpKey(a)[..|a|] == a && TmpKey(b)[..|b|] == b;
    }
  }

  lemma HeldIsDigest(hash: Hash, s: Store, k: Key, ino: nat)
    ensures Holds(hash, s, k, ino) ==> IsDigest(k)
  {
    if Holds(hash, s, k, ino) { DigestForm(hash, s.inodes[ino]); }
  }

  /** No fetch works on the file under another key's temporary name. */
  lemma StaleUnused(hash: Hash, s: Store, k: Key, n: Key)
    requires Invariant(hash, s) && Requestable(k) && n != k && n in s.fetches && TmpKey(k) in s.names
    ensures s.fetches[n].ino != s.names[TmpKey(k)]
  {
    hide DigestOf, IsDigest, TmpKey, Requestable;
    assert KeyOk(hash, s, n) && Apart(s, n, TmpKey(k));
    TmpIsNoDigest(k);
    TmpsDiffer(n, k);
    HeldIsDigest(hash, s, n, s.fetches[n].ino);
  }

  // Each step is shown to keep what holds of one key, two keys, one descriptor, or a descriptor and a
  // key, from the instances before the step that this depends on.

  lemma TruncatedKeys(hash: Hash, s: Store, k: Key, size: nat, a: Key, b: Key)
    requires Invariant(hash, s) && TmpKey(k) in s.names && k !in s.cache && k !in s.fetches && Requestable(k)
    ensures KeyOk(hash, Truncated(s, k, size), a) && Apart(Truncated(s, k, size), a, b)
  {
    var t := TmpKey(k);
    TmpIsNoDigest(k);
    assert KeyOk(hash, s, a) && KeyOk(hash, s, t) && Apart(s, a, t) && Apart(s, a, b) && Apart(s, b, t);
    if a != k && a in s.fetches { StaleUnused(hash, s, k, a); }
    if b != k && b in s.fetches { StaleUnused(hash, s, k, b); }
    TruncatedKey(hash, s, k, size, a);
    TruncatedApart(s, k, size, a, b);
  }

  lemma TruncatedKey(hash: Hash, s: Store, k: Key, size: nat, n: Key)
    requires TmpKey(k) in s.names && k !in s.cache && Requestable(k) && !IsDigest(TmpKey(k))
    requires KeyOk(hash, s, n) && KeyOk(hash, s, TmpKey(k)) && Apart(s, n, TmpKey(k))
    requires n != k && n in s.fetches ==> s.fetches[n].ino != s.names[TmpKey(k)]
    ensures KeyOk(hash, Truncated(s, k, size), n)
  {
    hide DigestOf, IsDigest, TmpKey, Requestable;
  }

  lemma TruncatedApart(s: Store, k: Key, size: nat, a: Key, b: Key)
    requires TmpKey(k) in s.names && Apart(s, a, b) && Apart(s, b, TmpKey(k))
    requires a != k && a in s.fetches ==> s.fetches[a].ino != s.names[TmpKey(k)]
    requires b != k && b in s.fetches ==> s.fetches[b].ino != s.names[TmpKey(k)]
    ensures Apart(Truncated(s, k, size), a, b)
  {
    hide TmpKey;
  }

  lemma KeepsTruncated(hash: Hash, s: Store, k: Key, size: nat)
    requires Invariant(hash, s) && TmpKey(k) in s.names && k !in s.cache && k !in s.fetches && Requestable(k)
    ensures Invariant(hash, Truncated(s, k, size))
  {
    hide KeyOk, Apart, DigestOf, IsDigest, TmpKey, Requestable;
    var s', t := Truncated(s, k, size), TmpKey(k);
    forall n ensures KeyOk(hash, s', n) { TruncatedKeys(hash, s, k, size, n, n); }
    forall a, b ensures Apart(s', a, b) { TruncatedKeys(hash, s, k, size, a, b); }
    forall h ensures HandleSafe(hash, s', h) { assert HandleSafe(hash, s, h) && Sealed(s, h, t); TmpIsNoDigest(k); }
    forall h, n ensures Sealed(s', h, n) { assert Sealed(s, h, n) && Sealed(s, h, t); TmpIsNoDigest(k); }
  }

  lemma CreatedKey(hash: Hash, s: Store, k: Key, size: nat, ino: nat, n: Key)
    requires TmpKey(k) !in s.names && ino !in s.inodes && k !in s.cache && Requestable(k) && !IsDigest(TmpKey(k))
    requires KeyOk(hash, s, n) && (TmpKey(n) == TmpKey(k) ==> n == k)
    ensures KeyOk(hash, Created(s, k, size, ino), n)
  {
    hide DigestOf, IsDigest, TmpKey, Requestable, FetchOk;
    CreatedFetch(hash, s, k, size, ino, n);
  }

  lemma CreatedFetch(hash: Hash, s: Store, k: Key, size: nat, ino: nat, n: Key)
    requires TmpKey(k) !in s.names && ino !in s.inodes && k !in s.cache && Requestable(k)
    requires FetchOk(hash, s, n) && (TmpKey(n) == TmpKey(k) ==> n == k)
    ensures FetchOk(hash, Created(s, k, size, ino), n)
  {
    hide DigestOf, TmpKey, Requestable;
  }

  lemma CreatedApart(hash: Hash, s: Store, k: Key, size: nat, ino: nat, a: Key, b: Key)
    requires ino !in s.inodes && Apart(s, a, b) && KeyOk(hash, s, a) && KeyOk(hash, s, b)
    ensures Apart(Created(s, k, size, ino), a, b)
  {
    hide DigestOf, IsDigest, TmpKey, Requestable;
  }

  lemma KeepsCreated(hash: Hash, s: Store, k: Key, size: nat, ino: nat)
    requires Invariant(hash, s) && TmpKey(k) !in s.names && ino !in s.inodes && k !in s.cache && k !in s.fetches
    requires Requestable(k)
    ensures Invariant(hash, Created(s, k, size, ino))
  {
    hide KeyOk, Apart, DigestOf, IsDigest, TmpKey, Requestable, HandleSafe, Sealed, Created;
    var s' := Created(s, k, size, ino);
    TmpIsNoDigest(k);
    forall n ensures KeyOk(hash, s', n) {
      TmpsDiffer(n, k);
      CreatedKey(hash, s, k, size, ino, n);
    }
    forall a, b ensures Apart(s', a, b) { CreatedApart(hash, s, k, size, ino, a, b); }
    forall h ensures HandleSafe(hash, s', h) { CreatedHandle(hash, s, k, size, ino, h, k); }
    forall h, n ensures Sealed(s', h, n) {
      assert Sealed(s, h, n);
      CreatedHandle(hash, s, k, size, ino, h, n);
    }
  }

  lemma CreatedHandle(hash: Hash, s: Store, k: Key, size: nat, ino: nat, h: Handle, n: Key)
    requires ino !in s.inodes && HandleSafe(hash, s, h) && Sealed(s, h, n)
    ensures HandleSafe(hash, Created(s, k, size, ino), h) && Sealed(Created(s, k, size, ino), h, n)
  {
    hide DigestOf, IsDigest, TmpKey;
  }

  lemma ChunkKey(hash: Hash, s: Store, k: Key, bytes: Bytes, n: Key)
    requires Apply(hash, s, Chunk(k, bytes)).Some? && !IsDigest(TmpKey(k))
    requires KeyOk(hash, s, k) && KeyOk(hash, s, n) && Apart(s, k, n) && Apart(s, n, k)
    ensures KeyOk(hash, Apply(hash, s, Chunk(k, bytes)).value, n)
  {
    hide DigestOf, IsDigest, TmpKey, Requestable;
  }

  lemma KeepsChunk(hash: Hash, s: Store, k: Key, bytes: Bytes)
    requires Invariant(hash, s) && Apply(hash, s, Chunk(k, bytes)).Some?
    ensures Invariant(hash, Apply(hash, s, Chunk(k, bytes)).value)
  {
    hide DigestOf, IsDigest, TmpKey, Requestable;
    var s' := Apply(hash, s, Chunk(k, bytes)).value;
    assert KeyOk(hash, s, k);
    TmpIsNoDigest(k);
    forall n ensures KeyOk(hash, s', n) {
      assert KeyOk(hash, s, n) && Apart(s, k, n) && Apart(s, n, k);
      ChunkKey(hash, s, k, bytes, n);
    }
    forall a, b ensures Apart(s', a, b) { assert Apart(s, a, b); }
    forall h ensures HandleSafe(hash, s', h) { assert HandleSafe(hash, s, h) && Sealed(s, h, k); }
    forall h, n ensures Sealed(s', h, n) { assert Sealed(s, h, n); }
  }

  lemma KeepsFail(hash: Hash, s: Store, k: Key)
    requires Invariant(hash, s) && Apply(hash, s, Fail(k)).Some?
    ensures Invariant(hash, Apply(hash, s, Fail(k)).value)
  {
    hide DigestOf, IsDigest, TmpKey, Requestable, KeyOk;
    var s' := Apply(hash, s, Fail(k)).value;
    forall n ensures KeyOk(hash, s', n) {
      assert KeyOk(hash, s, k) && KeyOk(hash, s, n);
      FailedKey(hash, s, k, n);
    }
    forall a, b ensures Apart(s', a, b) { assert Apart(s, a, b); }
    forall h ensures HandleSafe(hash, s', h) { assert HandleSafe(hash, s, h); }
    forall h, n ensures Sealed(s', h, n) { assert Sealed(s, h, n); }
  }

  lemma FailedKey(hash: Hash, s: Store, k: Key, n: Key)
    requires Apply(hash, s, Fail(k)).Some? && KeyOk(hash, s, k) && KeyOk(hash, s, n)
    ensures KeyOk(hash, Apply(hash, s, Fail(k)).value, n)
  {
    hide DigestOf, IsDigest, TmpKey, Requestable;
    TmpIsNoDigest(k);
    if n in s.fetches { HeldIsDigest(hash, s, n, s.fetches[n].ino); }
  }

  lemma KeepsChecked(hash: Hash, s: Store, k: Key)
    requires Invariant(hash, s) && Apply(hash, s, Check(k)).Some?
    ensures Invariant(hash, Checked(s, k))
  {
    hide DigestOf, IsDigest, TmpKey, Requestable, KeyOk;
    var s' := Checked(s, k);
    forall n ensures KeyOk(hash, s', n) {
      assert KeyOk(hash, s, n);
      CheckedKey(hash, s, k, n);
    }
    forall a, b ensures Apart(s', a, b) { assert Apart(s, a, b); }
    forall h ensures HandleSafe(hash, s', h) { assert HandleSafe(hash, s, h); }
    forall h, n ensures Sealed(s', h, n) { assert Sealed(s, h, n); }
  }

  lemma CheckedKey(hash: Hash, s: Store, k: Key, n: Key)
    requires Apply(hash, s, Check(k)).Some? && KeyOk(hash, s, n)
    ensures KeyOk(hash, Checked(s, k), n)
  {
    hide DigestOf, IsDigest, TmpKey, Requestable;
  }

  lemma KeepsEvicted(hash: Hash, s: Store, k: Key)
    requires Invariant(hash, s) && k in s.cache
    ensures Invariant(hash, Evicted(s, k))
  {
    hide DigestOf, IsDigest, TmpKey, Requestable;
    var s' := Evicted(s, k);
    forall n ensures KeyOk(hash, s', n) { assert KeyOk(hash, s, n); }
    forall a, b ensures Apart(s', a, b) { assert Apart(s, a, b); }
    forall h ensures HandleSafe(hash, s', h) { assert HandleSafe(hash, s, h); }
    forall h, n ensures Sealed(s', h, n) { assert Sealed(s, h, n); }
  }

  lemma KeepsRestarted(hash: Hash, s: Store)
    requires Invariant(hash, s)
    ensures Invariant(hash, Restarted(s))
  {
    hide KeyOk, Apart, HandleSafe, Sealed, Restarted;
    var s' := Restarted(s);
    forall n ensures KeyOk(hash, s', n) { RestartedKey(hash, s, n); }
    forall a, b ensures Apart(s', a, b) {
      assert Apart(s, a, b);
      RestartedApart(s, a, b);
    }
    forall h ensures HandleSafe(hash, s', h) { RestartedHandle(hash, s, h, ""); }
    forall h, n ensures Sealed(s', h, n) {
      assert Sealed(s, h, n);
      RestartedHandle(hash, s, h, n);
    }
  }

  lemma RestartedKey(hash: Hash, s: Store, n: Key)
    requires KeyOk(hash, s, n)
    ensures KeyOk(hash, Restarted(s), n)
  {
    hide DigestOf, IsDigest, TmpKey, Requestable, ValidKey;
  }

  lemma RestartedApart(s: Store, a: Key, b: Key)
    requires Apart(s, a, b)
    ensures Apart(Restarted(s), a, b)
  {
    hide ValidKey, TmpKey;
  }

  lemma RestartedHandle(hash: Hash, s: Store, h: Handle, n: Key)
    requires HandleSafe(hash, s, h) && Sealed(s, h, n)
    ensures HandleSafe(hash, Restarted(s), h) && Sealed(Restarted(s), h, n)
  {
    hide DigestOf, IsDigest, ValidKey;
  }

  lemma KeepsAbandoned(hash: Hash, s: Store, k: Key)
    requires Invariant(hash, s)
    ensures Invariant(hash, s.(fetches := s.fetches - {k}))
  {
    hide DigestOf, IsDigest, TmpKey, Requestable;
    var s' := s.(fetches := s.fetches - {k});
    forall n ensures KeyOk(hash, s', n) { assert KeyOk(hash, s, n); }
    forall a, b ensures Apart(s', a, b) { assert Apart(s, a, b); }
    forall h ensures HandleSafe(hash, s', h) { assert HandleSafe(hash, s, h); }
    forall h, n ensures Sealed(s', h, n) { assert Sealed(s, h, n); }
  }

  lemma RenamedKey(hash: Hash, s: Store, k: Key, n: Key)
    requires ApplyRename(s, k).Some? && KeyOk(hash, s, k) && !IsDigest(TmpKey(k))
    requires KeyOk(hash, s, n) && Apart(s, n, k) && (TmpKey(n) == TmpKey(k) ==> n == k)
    requires n in s.fetches && !s.fetches[n].phase.Writing? ==> IsDigest(n)
    requires n in s.fetches ==> !IsDigest(TmpKey(n))
    ensures KeyOk(hash, ApplyRename(s, k).value, n)
  {
    hide DigestOf, IsDigest, TmpKey, Requestable, FetchOk;
    RenamedFetch(hash, s, k, n);
    RenamedFile(hash, s, k, n);
  }

  lemma RenamedFetch(hash: Hash, s: Store, k: Key, n: Key)
    requires ApplyRename(s, k).Some? && FetchOk(hash, s, k) && !IsDigest(TmpKey(k))
    requires FetchOk(hash, s, n) && Apart(s, n, k) && (TmpKey(n) == TmpKey(k) ==> n == k)
    requires n in s.fetches && !s.fetches[n].phase.Writing? ==> IsDigest(n)
    requires n in s.fetches ==> !IsDigest(TmpKey(n))
    ensures FetchOk(hash, ApplyRename(s, k).value, n)
  {
    hide DigestOf, IsDigest, TmpKey, Requestable;
    HeldIsDigest(hash, s, k, s.fetches[k].ino);
  }

  lemma RenamedFile(hash: Hash, s: Store, k: Key, n: Key)
    requires ApplyRename(s, k).Some? && FetchOk(hash, s, k) && !IsDigest(TmpKey(k))
    requires FileSafe(hash, s, n) && CacheSafe(s, n) && (n in s.names ==> s.names[n] in s.inodes)
    ensures var s' := ApplyRename(s, k).value;
      FileSafe(hash, s', n) && CacheSafe(s', n) && (n in s'.names ==> s'.names[n] in s'.inodes)
  {
    hide DigestOf, IsDigest, TmpKey, Requestable;
  }

  lemma RenamedApart(hash: Hash, s: Store, k: Key, a: Key, b: Key)
    requires ApplyRename(s, k).Some? && KeyOk(hash, s, k)
    requires Apart(s, a, b) && Apart(s, k, a) && Apart(s, k, b) && Apart(s, a, k) && Apart(s, b, TmpKey(k))
    requires Apart(s, a, TmpKey(k))
    ensures Apart(ApplyRename(s, k).value, a, b)
  {
    hide DigestOf, IsDigest, TmpKey, Requestable;
  }

  lemma KeepsRename(hash: Hash, s: Store, k: Key)
    requires Invariant(hash, s) && ApplyRename(s, k).Some?
    ensures Invariant(hash, ApplyRename(s, k).value)
  {
    hide KeyOk, Apart, HandleSafe, Sealed, ApplyRename, TmpKey, IsDigest, Requestable;
    var s', t := ApplyRename(s, k).value, TmpKey(k);
    assert KeyOk(hash, s, k);
    RenamesDigest(hash, s, k);
    forall n ensures KeyOk(hash, s', n) {
      assert KeyOk(hash, s, k) && KeyOk(hash, s, n) && Apart(s, n, k);
      RenamedOk(hash, s, k, n);
    }
    forall a, b ensures Apart(s', a, b) {
      assert Apart(s, a, b) && Apart(s, k, a) && Apart(s, k, b) && Apart(s, a, k) && Apart(s, b, t) && Apart(s, a, t);
      assert KeyOk(hash, s, k);
      RenamedApart(hash, s, k, a, b);
    }
    forall h, n ensures HandleSafe(hash, s', h) && Sealed(s', h, n) {
      assert HandleSafe(hash, s, h) && Sealed(s, h, n) && Sealed(s, h, k) && Sealed(s, h, t);
      RenamedHandle(hash, s, k, h, n);
    }
    forall h ensures HandleSafe(hash, s', h) { assert Sealed(s', h, ""); }
  }

  lemma RenamedOk(hash: Hash, s: Store, k: Key, n: Key)
    requires ApplyRename(s, k).Some? && KeyOk(hash, s, k) && KeyOk(hash, s, n) && Apart(s, n, k)
    ensures KeyOk(hash, ApplyRename(s, k).value, n)
  {
    hide DigestOf, IsDigest, TmpKey, Requestable, Apart;
    TmpIsNoDigest(k);
    TmpsDiffer(n, k);
    if n in s.fetches {
      HeldIsDigest(hash, s, n, s.fetches[n].ino);
      TmpIsNoDigest(n);
    }
    RenamedKey(hash, s, k, n);
  }

  lemma RenamesDigest(hash: Hash, s: Store, k: Key)
    requires ApplyRename(s, k).Some? && KeyOk(hash, s, k)
    ensures !IsDigest(TmpKey(k))
  {
    hide IsDigest, TmpKey, Requestable, Holds, DigestOf;
    TmpIsNoDigest(k);
  }

  lemma RenamedHandle(hash: Hash, s: Store, k: Key, h: Handle, n: Key)
    requires ApplyRename(s, k).Some? && HandleSafe(hash, s, h) && !IsDigest(TmpKey(k))
    requires Sealed(s, h, n) && Sealed(s, h, k) && Sealed(s, h, TmpKey(k))
    ensures HandleSafe(hash, ApplyRename(s, k).value, h) && Sealed(ApplyRename(s, k).value, h, n)
  {
    hide DigestOf, IsDigest, TmpKey;
  }

  lemma KeepsFinished(hash: Hash, s: Store, k: Key)
    requires Invariant(hash, s) && k in s.fetches && s.fetches[k].phase.Renamed?
    ensures Invariant(hash, Finished(s, k))
  {
    hide DigestOf, IsDigest, TmpKey, Requestable;
    var s' := Finished(s, k);
    assert KeyOk(hash, s, k);
    forall n ensures KeyOk(hash, s', n) { assert KeyOk(hash, s, n); }
    forall a, b ensures Apart(s', a, b) { assert Apart(s, a, b); }
    forall h ensures HandleSafe(hash, s', h) { assert HandleSafe(hash, s, h); }
    forall h, n ensures Sealed(s', h, n) { assert Sealed(s, h, n) && Apart(s, k, n); }
  }

  lemma KeepsOpened(hash: Hash, s: Store, k: Key, size: nat)
    requires Invariant(hash, s) && Apply(hash, s, Hit(k, size)).Some?
    ensures Invariant(hash, Opened(s, k, size))
  {
    hide DigestOf, IsDigest, TmpKey, Requestable;
    var s' := Opened(s, k, size);
    assert KeyOk(hash, s, k);
    forall n ensures KeyOk(hash, s', n) { assert KeyOk(hash, s, n); }
    forall a, b ensures Apart(s', a, b) { assert Apart(s, a, b); }
    forall h ensures HandleSafe(hash, s', h) { assert HandleSafe(hash, s, h); }
    forall h, n ensures Sealed(s', h, n) {
      assert Sealed(s, h, n) && Apart(s, k, n) && Apart(s, n, k) && KeyOk(hash, s, n);
      if n in s.fetches { TmpIsNoDigest(n); }
    }
  }

  lemma StepKeeps(hash: Hash, s: Store, step: Step)
    requires Invariant(hash, s) && Apply(hash, s, step).Some?
    ensures Invariant(hash, Apply(hash, s, step).value)
  {
    hide Invariant, Truncated, Created, ApplyRename, Restarted, Checked, Finished, Opened, Evicted;
    match step
    case Start(k, size, ino) =>
      if TmpKey(k) in s.names { KeepsTruncated(hash, s, k, size); } else { KeepsCreated(hash, s, k, size, ino); }
    case Chunk(k, bytes) => KeepsChunk(hash, s, k, bytes);
    case Fail(k) => KeepsFail(hash, s, k);
    case Rename(k) => KeepsRename(hash, s, k);
    case Check(k) => KeepsChecked(hash, s, k);
    case Finish(k) => KeepsFinished(hash, s, k);
    case Abandon(k) => KeepsAbandoned(hash, s, k);
    case Hit(k, size) => KeepsOpened(hash, s, k, size);
    case Evict(k) => KeepsEvicted(hash, s, k);
    case Restart => KeepsRestarted(hash, s);
  }

  // ---------- whole runs ----------

  const EMPTY: Store := Store(map[], map[], map[], map[], {})

  /** The store after some steps; a step that cannot happen ends the run. */
  function Run(hash: Hash, steps: seq<Step>): Option<Store> {
    if steps == [] then Some(EMPTY)
    else
      match Run(hash, steps[..|steps| - 1])
      case None => None
      case Some(s) => Apply(hash, s, steps[|steps| - 1])
  }

  lemma {:induction false} RunKeeps(hash: Hash, steps: seq<Step>)
    requires Run(hash, steps).Some?
    ensures Invariant(hash, Run(hash, steps).value)
  {
    if steps != [] {
      var n := |steps| - 1;
      RunKeeps(hash, steps[..n]);
      StepKeeps(hash, Run(hash, steps[..n]).value, steps[n]);
    }
  }

  /** After any interleaving of fetches, failures, evictions and restarts the store is safe. */
  lemma AlwaysSafe(hash: Hash, steps: seq<Step>)
    requires Run(hash, steps).Some?
    ensures Safe(hash, Run(hash, steps).value)
  {
    RunKeeps(hash, steps);
    var s := Run(hash, steps).value;
    forall k ensures FileSafe(hash, s, k) && CacheSafe(s, k) { assert KeyOk(hash, s, k); }
  }

  /** The descriptor is still there, and so are the bytes behind it. */
  predicate Undisturbed(s: Store, s': Store, h: Handle) {
    h in s'.handles && h.ino in s.inodes && h.ino in s'.inodes && s'.inodes[h.ino] == s.inodes[h.ino]
  }

  lemma StartElsewhere(s: Store, k: Key, size: nat, ino: nat, h: Handle)
    requires ApplyStart(s, k, size, ino).Some? && h in s.handles && h.ino in s.inodes
    requires TmpKey(k) in s.names ==> s.names[TmpKey(k)] != h.ino
    ensures Undisturbed(s, ApplyStart(s, k, size, ino).value, h)
  {
    hide TmpKey, Requestable;
  }

  lemma ChunkElsewhere(hash: Hash, s: Store, k: Key, bytes: Bytes, h: Handle)
    requires Apply(hash, s, Chunk(k, bytes)).Some? && h in s.handles && h.ino in s.inodes
    requires k in s.fetches ==> s.fetches[k].ino != h.ino
    ensures Undisturbed(s, Apply(hash, s, Chunk(k, bytes)).value, h)
  {
  }

  /** No other step writes to a file. */
  lemma NothingWritten(hash: Hash, s: Store, step: Step, h: Handle)
    requires Apply(hash, s, step).Some? && !step.Start? && !step.Chunk? && h in s.handles && h.ino in s.inodes
    ensures Undisturbed(s, Apply(hash, s, step).value, h)
  {
    hide DigestOf, TmpKey, ValidKey, ApplyStart;
  }

  lemma HandleKept(hash: Hash, s: Store, h: Handle, k: Key)
    requires Invariant(hash, s) && h in s.handles && IsDigest(h.key)
    ensures h.ino in s.inodes
    ensures k in s.fetches ==> s.fetches[k].ino != h.ino
    ensures k in s.names && s.names[k] == h.ino ==> k == h.key
  {
    hide KeyOk, Apart, DigestOf, IsDigest;
    assert HandleSafe(hash, s, h) && Sealed(s, h, k);
  }

  /** A descriptor handed out for a digest never sees its bytes change. */
  lemma HandleFixed(hash: Hash, s: Store, step: Step, h: Handle)
    requires Invariant(hash, s) && Apply(hash, s, step).Some? && h in s.handles && IsDigest(h.key)
    ensures Undisturbed(s, Apply(hash, s, step).value, h)
  {
    hide IsDigest, TmpKey, Invariant, Requestable, Undisturbed, ApplyStart;
    match step
    case Start(k, size, ino) =>
      HandleKept(hash, s, h, TmpKey(k));
      StartIsFor(s, k, size, ino);
      TmpIsNoDigest(k);
      StartElsewhere(s, k, size, ino, h);
    case Chunk(k, bytes) =>
      HandleKept(hash, s, h, k);
      ChunkElsewhere(hash, s, k, bytes, h);
    case _ =>
      HandleKept(hash, s, h, h.key);
      NothingWritten(hash, s, step, h);
  }

  lemma StartIsFor(s: Store, k: Key, size: nat, ino: nat)
    requires ApplyStart(s, k, size, ino).Some?
    ensures Requestable(k)
  {
    hide Requestable, TmpKey;
  }
}
