/**
 Which files of the blob store (peoci/src/blobcache.rs, peoci/src/ocidist_cache.rs) somebody answers for: over
 every run, what is on disk is cached or being fetched, but for files whose fetch nobody waited for. And what
 fetching, hitting and restarting achieve.
 */
module BlobOwners {
  import opened Bytes
  import opened BlobStore

  /** The file belongs to a fetch under way. */
  predicate Fetched(s: Store, n: Key) {
    exists k :: k in s.fetches && FetchName(k, s.fetches[k]) == n
  }

  predicate Owned(s: Store, n: Key) {
    n in s.cache || Fetched(s, n)
  }

  /** A file on disk that is neither cached nor being fetched: nothing will ever remove it. */
  predicate Orphan(s: Store, n: Key) {
    n in s.names && !Owned(s, n)
  }

  // ---------- names stay valid ----------

  predicate NamesValid(s: Store) {
    (forall n :: n in s.names ==> ValidKey(n)) && (forall k :: k in s.fetches ==> ValidKey(k))
  }

  lemma TmpValid(k: Key)
    requires ValidKey(k)
    ensures ValidKey(TmpKey(k))
  {
    var t := TmpKey(k);
    var i :| 0 < i < |k| - 1 && FirstColon(k, i);
    assert t[..i] == k[..i] && FirstColon(t, i);
    forall c | c in t ensures c in k || c in "_tmp" {}
    assert '.' !in "_tmp" && '/' !in "_tmp";
  }

  lemma ValidStep(hash: Hash, s: Store, step: Step)
    requires NamesValid(s) && Apply(hash, s, step).Some?
    ensures NamesValid(Apply(hash, s, step).value)
  {
    hide DigestOf, ValidKey, TmpKey, Requestable, NamesValid, ApplyStart, ApplyRename;
    match step
    case Start(_, _, _) => StartValid(s, step);
    case Rename(k) => RenameValid(s, k);
    case _ =>
      FewerNames(hash, s, step);
      FewerValid(s, Apply(hash, s, step).value);
  }

  lemma FewerNames(hash: Hash, s: Store, step: Step)
    requires Apply(hash, s, step).Some? && !step.Start? && !step.Rename?
    ensures var s' := Apply(hash, s, step).value;
      s'.names.Keys <= s.names.Keys && s'.fetches.Keys <= s.fetches.Keys
  {
    hide DigestOf, ValidKey, TmpKey, Requestable, ApplyStart, ApplyRename, Holds;
    if step.Fail? || step.Abandon? || step.Finish? { FewerFetches(s, step.key); }
    if step.Restart? { assert Restarted(s).fetches.Keys == {}; }
  }

  lemma FewerFetches(s: Store, k: Key)
    ensures (s.fetches - {k}).Keys <= s.fetches.Keys && (s.names - {k}).Keys <= s.names.Keys
  {
  }

  lemma FewerValid(s: Store, s': Store)
    requires NamesValid(s) && s'.names.Keys <= s.names.Keys && s'.fetches.Keys <= s.fetches.Keys
    ensures NamesValid(s')
  {
    hide ValidKey;
    assert forall n :: n in s'.names ==> n in s'.names.Keys;
    assert forall k :: k in s'.fetches ==> k in s'.fetches.Keys;
  }

  lemma RenameValid(s: Store, k: Key)
    requires NamesValid(s) && ApplyRename(s, k).Some?
    ensures NamesValid(ApplyRename(s, k).value)
  {
    hide ValidKey, TmpKey;
  }

  lemma StartValid(s: Store, step: Step)
    requires NamesValid(s) && step.Start? && ApplyStart(s, step.key, step.size, step.ino).Some?
    ensures NamesValid(ApplyStart(s, step.key, step.size, step.ino).value)
  {
    hide ValidKey, TmpKey, Requestable;
    TmpValid(step.key);
  }

  // ---------- no file without an owner ----------

  /** A step leaves no file without an owner, except that a fetch is given up after its file was renamed. */
  lemma OrphanStep(hash: Hash, s: Store, step: Step, n: Key)
    requires Invariant(hash, s) && NamesValid(s) && Apply(hash, s, step).Some?
    ensures var s' := Apply(hash, s, step).value;
      && (Orphan(s', n) ==> Orphan(s, n) || step == Abandon(n))
      && (step.Restart? ==> !Orphan(s', n))
  {
    hide Invariant, DigestOf, IsDigest, ValidKey, TmpKey, Requestable, ApplyRename, ApplyStart, NamesValid, Orphan,
      Restarted, Finished, Evicted, Checked;
    match step
    case Start(k, size, ino) => StartOrphan(s, k, size, ino, n);
    case Rename(k) => RenameOrphan(s, k, n);
    case Restart => RestartOrphan(hash, s, n);
    case Finish(k) => FinishOrphan(hash, s, k, n);
    case Abandon(k) => AbandonOrphan(hash, s, k, n);
    case Fail(k) => FailOrphan(s, k, n);
    case Evict(k) => EvictOrphan(s, k, n);
    case Check(k) => CheckOrphan(s, k, n);
    case _ => SameOrphan(hash, s, step, n);
  }

  lemma SameOrphan(hash: Hash, s: Store, step: Step, n: Key)
    requires Apply(hash, s, step).Some? && (step.Chunk? || step.Hit?)
    ensures Orphan(Apply(hash, s, step).value, n) <==> Orphan(s, n)
  {
    hide DigestOf;
  }

  lemma StartOrphan(s: Store, k: Key, size: nat, ino: nat, n: Key)
    requires ApplyStart(s, k, size, ino).Some?
    ensures Orphan(ApplyStart(s, k, size, ino).value, n) ==> Orphan(s, n)
  {
    hide ValidKey, TmpKey, Requestable;
    var s' := ApplyStart(s, k, size, ino).value;
    assert k in s'.fetches && FetchName(k, s'.fetches[k]) == TmpKey(k);
    if j :| j in s.fetches && FetchName(j, s.fetches[j]) == n { assert FetchName(j, s'.fetches[j]) == n; }
  }

  lemma RenameOrphan(s: Store, k: Key, n: Key)
    requires ApplyRename(s, k).Some?
    ensures Orphan(ApplyRename(s, k).value, n) ==> Orphan(s, n)
  {
    hide TmpKey;
    var s' := ApplyRename(s, k).value;
    if TmpKey(k) in s.names { assert FetchName(k, s'.fetches[k]) == k; }
    if j :| j in s.fetches && FetchName(j, s.fetches[j]) == n && j != k { assert FetchName(j, s'.fetches[j]) == n; }
  }

  lemma RestartOrphan(hash: Hash, s: Store, n: Key)
    requires Invariant(hash, s) && NamesValid(s)
    ensures !Orphan(Restarted(s), n)
  {
    hide DigestOf, IsDigest, ValidKey, TmpKey, Requestable;
    assert KeyOk(hash, s, n);
  }

  lemma FinishOrphan(hash: Hash, s: Store, k: Key, n: Key)
    requires Invariant(hash, s) && k in s.fetches && s.fetches[k].phase.Renamed?
    ensures Orphan(Finished(s, k), n) ==> Orphan(s, n)
  {
    hide Invariant, TmpKey;
    var s' := Finished(s, k);
    if j :| j in s.fetches && FetchName(j, s.fetches[j]) == n && j != k { assert FetchName(j, s'.fetches[j]) == n; }
  }

  lemma AbandonOrphan(hash: Hash, s: Store, k: Key, n: Key)
    requires k in s.fetches && s.fetches[k].phase.Renamed?
    ensures Orphan(s.(fetches := s.fetches - {k}), n) ==> Orphan(s, n) || k == n
  {
    hide TmpKey;
    var s' := s.(fetches := s.fetches - {k});
    if j :| j in s.fetches && FetchName(j, s.fetches[j]) == n && j != k { assert FetchName(j, s'.fetches[j]) == n; }
  }

  lemma FailOrphan(s: Store, k: Key, n: Key)
    requires k in s.fetches && !s.fetches[k].phase.Renamed?
    ensures Orphan(s.(names := s.names - {TmpKey(k)}, fetches := s.fetches - {k}), n) ==> Orphan(s, n)
  {
    hide TmpKey;
    var s' := s.(names := s.names - {TmpKey(k)}, fetches := s.fetches - {k});
    if j :| j in s.fetches && FetchName(j, s.fetches[j]) == n && j != k { assert FetchName(j, s'.fetches[j]) == n; }
  }

  lemma EvictOrphan(s: Store, k: Key, n: Key)
    ensures Orphan(Evicted(s, k), n) ==> Orphan(s, n)
  {
    hide TmpKey;
  }

  lemma CheckOrphan(s: Store, k: Key, n: Key)
    requires k in s.fetches && !s.fetches[k].phase.Renamed?
    ensures Orphan(Checked(s, k), n) ==> Orphan(s, n)
  {
    hide TmpKey;
    var s' := Checked(s, k);
    if j :| j in s.fetches && FetchName(j, s.fetches[j]) == n { assert FetchName(j, s'.fetches[j]) == n; }
  }

  /** The fetch of `n` was given up after its file was renamed, and the store was not restarted since. */
  predicate GivenUp(steps: seq<Step>, n: Key) {
    exists i :: 0 <= i < |steps| && GivenUpAt(steps, n, i)
  }

  predicate GivenUpAt(steps: seq<Step>, n: Key, i: nat)
    requires i < |steps|
  {
    steps[i] == Abandon(n) && forall j :: i < j < |steps| ==> !steps[j].Restart?
  }

  lemma {:induction false} RunValid(hash: Hash, steps: seq<Step>)
    requires Run(hash, steps).Some?
    ensures NamesValid(Run(hash, steps).value)
  {
    hide Apply, NamesValid;
    if steps == [] {
      NoneValid();
    } else {
      var n := |steps| - 1;
      RunValid(hash, steps[..n]);
      ValidStep(hash, Run(hash, steps[..n]).value, steps[n]);
    }
  }

  lemma NoneValid()
    ensures NamesValid(EMPTY)
  {
  }

  /** In every run a file on disk is cached or being fetched, or nobody waited for it since the last restart. */
  lemma {:induction false} NoOrphans(hash: Hash, steps: seq<Step>, n: Key)
    requires Run(hash, steps).Some? && n in Run(hash, steps).value.names
    ensures Owned(Run(hash, steps).value, n) || GivenUp(steps, n)
  {
    hide Apply, Owned, GivenUp, Invariant, NamesValid;
    if steps != [] {
      var last := |steps| - 1;
      var before := steps[..last];
      var s := Run(hash, before).value;
      RunKeeps(hash, before);
      RunValid(hash, before);
      OrphanStep(hash, s, steps[last], n);
      if !Owned(Run(hash, steps).value, n) {
        if Orphan(s, n) { NoOrphans(hash, before, n); }
        GivenUpLater(steps, n);
      }
    }
  }

  lemma GivenUpLater(steps: seq<Step>, n: Key)
    requires steps != []
    ensures var last := |steps| - 1;
      steps[last] == Abandon(n) || (GivenUp(steps[..last], n) && !steps[last].Restart?) ==> GivenUp(steps, n)
  {
    var last := |steps| - 1;
    if steps[last] == Abandon(n) {
      assert GivenUpAt(steps, n, last);
    } else if GivenUp(steps[..last], n) && !steps[last].Restart? {
      var i :| 0 <= i < last && GivenUpAt(steps[..last], n, i);
      forall j | i < j < |steps| ensures !steps[j].Restart? {
        if j < last { assert steps[..last][j] == steps[j]; }
      }
      assert GivenUpAt(steps, n, i);
    }
  }

  // ---------- exactly the owned files ----------

  /** Digests only, every fetch waited for, no restart. */
  predicate Ordinary(step: Step) {
    !step.Abandon? && !step.Restart? && (step.Start? ==> IsDigest(step.key))
  }

  /** What is on disk is exactly what is cached or being fetched, and keys are digests. */
  ghost predicate Exactly(s: Store) {
    && (forall n :: n in s.names <==> Owned(s, n))
    && (forall k :: k in s.cache || k in s.fetches ==> IsDigest(k))
  }

  lemma ExactStep(hash: Hash, s: Store, step: Step)
    requires Invariant(hash, s) && NamesValid(s) && Exactly(s) && Ordinary(step) && Apply(hash, s, step).Some?
    ensures Exactly(Apply(hash, s, step).value)
  {
    hide Invariant, NamesValid, IsDigest, Apply, Orphan, Owned, Fetched;
    var s' := Apply(hash, s, step).value;
    forall n ensures n in s'.names <==> Owned(s', n) {
      OrphanStep(hash, s, step, n);
      OwnedIsNamed(hash, s, step, n);
      OrphanIs(s, n);
      OrphanIs(s', n);
    }
    forall k | k in s'.cache || k in s'.fetches ensures IsDigest(k) { DigestsStay(hash, s, step, k); }
  }

  lemma OrphanIs(s: Store, n: Key)
    ensures Orphan(s, n) <==> n in s.names && !Owned(s, n)
  {
  }

  lemma DigestsStay(hash: Hash, s: Store, step: Step, k: Key)
    requires Ordinary(step) && Apply(hash, s, step).Some?
    requires k in s.cache || k in s.fetches ==> IsDigest(k)
    ensures var s' := Apply(hash, s, step).value; k in s'.cache || k in s'.fetches ==> IsDigest(k)
  {
    hide IsDigest, DigestOf, TmpKey, ValidKey, Requestable, ApplyStart, ApplyRename;
    if step.Start? {
      StartKeys(s, step.key, step.size, step.ino);
    } else if step.Rename? {
      RenameKeys(s, step.key);
    }
  }

  lemma StartKeys(s: Store, k: Key, size: nat, ino: nat)
    requires ApplyStart(s, k, size, ino).Some?
    ensures var s' := ApplyStart(s, k, size, ino).value; s'.cache == s.cache && s'.fetches.Keys == s.fetches.Keys + {k}
  {
    hide TmpKey, ValidKey, Requestable;
  }

  lemma RenameKeys(s: Store, k: Key)
    requires ApplyRename(s, k).Some?
    ensures var s' := ApplyRename(s, k).value; s'.cache == s.cache && s'.fetches.Keys <= s.fetches.Keys
  {
    hide TmpKey;
  }

  lemma OwnedIsNamed(hash: Hash, s: Store, step: Step, n: Key)
    requires Invariant(hash, s) && Exactly(s) && Ordinary(step) && Apply(hash, s, step).Some?
    ensures var s' := Apply(hash, s, step).value; Owned(s', n) ==> n in s'.names
  {
    hide Invariant, IsDigest, DigestOf, TmpKey, ValidKey, Requestable, Owned, Apply;
    var s' := Apply(hash, s, step).value;
    if n in s'.cache {
      CachedIsNamed(hash, s, step, n);
    } else if Owned(s', n) {
      var k := OwnerOf(s', n);
      FetchIsNamed(hash, s, step, k);
    }
  }

  lemma OwnerOf(s: Store, n: Key) returns (k: Key)
    requires Owned(s, n) && n !in s.cache
    ensures k in s.fetches && FetchName(k, s.fetches[k]) == n
  {
    k :| k in s.fetches && FetchName(k, s.fetches[k]) == n;
  }

  lemma OwnedBy(s: Store, k: Key)
    ensures k in s.cache ==> Owned(s, k)
    ensures k in s.fetches ==> Owned(s, FetchName(k, s.fetches[k]))
  {
  }

  lemma CachedIsNamed(hash: Hash, s: Store, step: Step, n: Key)
    requires Invariant(hash, s) && Exactly(s) && Ordinary(step) && Apply(hash, s, step).Some?
    requires n in Apply(hash, s, step).value.cache
    ensures n in Apply(hash, s, step).value.names
  {
    hide Invariant, IsDigest, DigestOf, TmpKey, ValidKey, Requestable, Owned, Exactly;
    if n in s.cache { CachedNamed(s, n); }
    match step
    case Fail(k) => FetchDigest(s, k);
    case Rename(k) => FetchDigest(s, k);
    case Finish(k) => FetchNamed(s, k);
    case _ =>
  }

  lemma CachedNamed(s: Store, k: Key)
    requires Exactly(s) && k in s.cache
    ensures k in s.names && IsDigest(k)
  {
    hide Owned, IsDigest;
    OwnedBy(s, k);
  }

  /** A digest is no temporary name, and the temporary names of different digests differ. */
  lemma FetchDigest(s: Store, k: Key)
    requires Exactly(s) && k in s.fetches
    ensures !IsDigest(TmpKey(k))
  {
    hide Owned;
    TmpIsNoDigest(k);
  }

  lemma FetchIsNamed(hash: Hash, s: Store, step: Step, k: Key)
    requires Invariant(hash, s) && Exactly(s) && Ordinary(step) && Apply(hash, s, step).Some?
    requires k in Apply(hash, s, step).value.fetches
    ensures var s' := Apply(hash, s, step).value; FetchName(k, s'.fetches[k]) in s'.names
  {
    hide Invariant, IsDigest, DigestOf, TmpKey, ValidKey, Requestable, Owned, ApplyRename, Exactly, FetchName,
      ApplyStart, Evicted, Finished, Opened;
    if k in s.fetches { FetchNamed(s, k); }
    match step
    case Start(j, size, ino) => StartNamed(s, j, size, ino, k);
    case Fail(j) =>
      FetchDigest(s, j);
      TmpsDiffer(k, j);
      FailNamed(s, j, k);
    case Rename(j) =>
      RenameFetches(s, j);
      FetchNamed(s, j);
      TmpsDiffer(k, j);
      FetchDigest(s, j);
      RenameNamed(s, j, k);
    case Evict(j) =>
      EvictFetches(s, j);
      FetchDigest(s, k);
      NotCached(hash, s, k);
      CachedNamed(s, j);
      EvictNamed(s, j, k);
    case Check(j) => CheckNamed(s, j, k);
    case Finish(j) => FinishNamed(s, j, k);
    case Hit(j, size) => OpenNamed(s, j, size);
    case Chunk(_, _) =>
  }

  lemma RenameFetches(s: Store, j: Key)
    requires ApplyRename(s, j).Some?
    ensures j in s.fetches && ApplyRename(s, j).value.fetches.Keys <= s.fetches.Keys
  {
    hide TmpKey;
  }

  lemma EvictFetches(s: Store, j: Key)
    ensures Evicted(s, j).fetches == s.fetches
  {
  }

  lemma FinishNamed(s: Store, j: Key, k: Key)
    requires j in s.fetches && k in Finished(s, j).fetches
    ensures k in s.fetches && Finished(s, j).fetches[k] == s.fetches[k] && Finished(s, j).names == s.names
  {
  }

  lemma OpenNamed(s: Store, j: Key, size: nat)
    requires j in s.names
    ensures Opened(s, j, size).fetches == s.fetches && Opened(s, j, size).names == s.names
  {
  }

  lemma FetchNamed(s: Store, k: Key)
    requires Exactly(s) && k in s.fetches
    ensures FetchName(k, s.fetches[k]) in s.names && IsDigest(k)
  {
    hide Owned, IsDigest, TmpKey;
    OwnedBy(s, k);
  }

  lemma StartNamed(s: Store, j: Key, size: nat, ino: nat, k: Key)
    requires ApplyStart(s, j, size, ino).Some? && k in ApplyStart(s, j, size, ino).value.fetches
    requires k in s.fetches ==> FetchName(k, s.fetches[k]) in s.names
    ensures var s' := ApplyStart(s, j, size, ino).value; FetchName(k, s'.fetches[k]) in s'.names
  {
    hide TmpKey, ValidKey, Requestable;
  }

  lemma FailNamed(s: Store, j: Key, k: Key)
    requires k in s.fetches && j in s.fetches && k != j && FetchName(k, s.fetches[k]) in s.names
    requires IsDigest(k) && !IsDigest(TmpKey(j)) && (TmpKey(k) == TmpKey(j) ==> k == j)
    ensures FetchName(k, s.fetches[k]) in s.names - {TmpKey(j)}
  {
    hide TmpKey, IsDigest;
  }

  lemma RenameNamed(s: Store, j: Key, k: Key)
    requires ApplyRename(s, j).Some? && k in ApplyRename(s, j).value.fetches && IsDigest(k) && !IsDigest(TmpKey(j))
    requires k in s.fetches && FetchName(k, s.fetches[k]) in s.names && (TmpKey(k) == TmpKey(j) ==> k == j)
    ensures var s' := ApplyRename(s, j).value; FetchName(k, s'.fetches[k]) in s'.names
  {
    hide TmpKey, IsDigest;
  }

  lemma EvictNamed(s: Store, j: Key, k: Key)
    requires k in s.fetches && FetchName(k, s.fetches[k]) in s.names && j in s.cache && k !in s.cache
    requires !IsDigest(TmpKey(k)) && IsDigest(j)
    ensures FetchName(k, s.fetches[k]) in Evicted(s, j).names
  {
    hide TmpKey, IsDigest;
  }

  lemma CheckNamed(s: Store, j: Key, k: Key)
    requires k in s.fetches && FetchName(k, s.fetches[k]) in s.names && j in s.fetches && s.fetches[j].phase.Writing?
    ensures FetchName(k, Checked(s, j).fetches[k]) in s.names
  {
    hide TmpKey;
  }

  lemma NotCached(hash: Hash, s: Store, k: Key)
    requires Invariant(hash, s) && k in s.fetches
    ensures k !in s.cache
  {
    hide DigestOf, IsDigest, TmpKey, Requestable;
    assert KeyOk(hash, s, k);
  }

  /** In a run of ordinary steps the files on disk are exactly the cached ones and those being fetched. */
  lemma {:induction false} DiskIsOwned(hash: Hash, steps: seq<Step>)
    requires Run(hash, steps).Some? && forall i :: 0 <= i < |steps| ==> Ordinary(steps[i])
    ensures Exactly(Run(hash, steps).value)
  {
    hide Apply, Invariant, NamesValid, Exactly, Ordinary;
    if steps == [] {
      NothingExact();
    } else {
      var last := |steps| - 1;
      var before := steps[..last];
      DiskIsOwned(hash, before);
      RunKeeps(hash, before);
      RunValid(hash, before);
      ExactStep(hash, Run(hash, before).value, steps[last]);
    }
  }

  lemma NothingExact()
    ensures Exactly(EMPTY)
  {
  }

  // ---------- what steps achieve ----------

  /** After a restart exactly the files on disk are cached, with their sizes, digests cached before among them. */
  lemma RestartLoads(hash: Hash, s: Store, n: Key)
    requires Invariant(hash, s) && NamesValid(s)
    ensures Apply(hash, s, Restart).Some?
    ensures var s' := Apply(hash, s, Restart).value;
      && s'.names == s.names && s'.inodes == s.inodes && s'.fetches == map[]
      && (n in s'.cache <==> n in s.names)
      && (n in s.names ==> s.names[n] in s.inodes && s'.cache[n] == |s.inodes[s.names[n]]|)
      && (n in s.cache && IsDigest(n) ==> n in s'.cache && s'.cache[n] == s.cache[n])
  {
    hide DigestOf, IsDigest, ValidKey, TmpKey, Requestable;
    assert KeyOk(hash, s, n);
  }

  /** A cached digest is opened for every caller that asks for its size, and for no other. */
  lemma HitIff(hash: Hash, s: Store, k: Key, size: nat)
    requires Invariant(hash, s) && k in s.cache && IsDigest(k)
    ensures Apply(hash, s, Hit(k, size)).Some? <==> size == s.cache[k]
    ensures size == s.cache[k] ==> Handle(k, size, s.names[k]) in Apply(hash, s, Hit(k, size)).value.handles
  {
    hide DigestOf, IsDigest, TmpKey, Requestable;
    assert KeyOk(hash, s, k);
  }

  /** The state after more steps. */
  function Continue(hash: Hash, s: Store, steps: seq<Step>): Option<Store>
    decreases |steps|
  {
    if steps == [] then Some(s)
    else
      match Apply(hash, s, steps[0])
      case None => None
      case Some(next) => Continue(hash, next, steps[1..])
  }

  function AllOf(chunks: seq<Bytes>): Bytes {
    if chunks == [] then [] else chunks[0] + AllOf(chunks[1..])
  }

  function ChunkSteps(k: Key, chunks: seq<Bytes>): seq<Step> {
    if chunks == [] then [] else [Chunk(k, chunks[0])] + ChunkSteps(k, chunks[1..])
  }

  /** The steps of a fetch that receives the chunks. */
  function FetchSteps(k: Key, chunks: seq<Bytes>, ino: nat): seq<Step> {
    [Start(k, |AllOf(chunks)|, ino)] + (ChunkSteps(k, chunks) + [Check(k), Rename(k), Finish(k)])
  }

  /**
   A fetch whose chunks together have the digest and the size runs to its end: the file is there with these
   bytes, cached, and handed on.
   */
  lemma FetchSucceeds(hash: Hash, s: Store, chunks: seq<Bytes>, ino: nat)
    requires Invariant(hash, s) && ino !in s.inodes
    requires var k := DigestOf(hash, AllOf(chunks)); k !in s.cache && k !in s.fetches
    ensures var data := AllOf(chunks);
      var k := DigestOf(hash, data);
      var end := Continue(hash, s, FetchSteps(k, chunks, ino));
      && end.Some? && k in end.value.cache && end.value.cache[k] == |data| && k !in end.value.fetches
      && k in end.value.names && Holds(hash, end.value, k, end.value.names[k])
      && end.value.inodes[end.value.names[k]] == data
      && Handle(k, |data|, end.value.names[k]) in end.value.handles
  {
    hide DigestOf, IsDigest, TmpKey, Requestable, ValidKey, Invariant, Apply, AllOf, ChunkSteps;
    var data := AllOf(chunks);
    var k := DigestOf(hash, data);
    DigestForm(hash, data);
    DigestRequestable(k);
    DigestValid(hash, data);
    var last := [Check(k), Rename(k), Finish(k)];
    var s1 := Started(hash, s, k, |data|, ino);
    var i := s1.fetches[k].ino;
    var s2 := Written(hash, s1, k, chunks, last);
    assert [] + data == data;
    var s3 := Confirmed(hash, s2, k);
    var s4 := Moved(hash, s3, k);
    var s5 := Finished(s4, k);
    FinishApplies(hash, s4, k);
    StepFirst(hash, s, s1, Start(k, |data|, ino), ChunkSteps(k, chunks) + last);
    ThreeSteps(hash, s2, s3, s4, s5, Check(k), Rename(k), Finish(k));
  }

  lemma {:induction false} HexPlain(bs: Bytes)
    ensures forall i :: 0 <= i < |Hex(bs)| ==> Hex(bs)[i] in HEX
  {
    if bs != [] { HexPlain(bs[1..]); }
  }

  /** Every digest is a key. */
  lemma DigestValid(hash: Hash, data: Bytes)
    ensures ValidKey(DigestOf(hash, data))
  {
    hide Hex;
    var k := DigestOf(hash, data);
    HexPlain(hash(data));
    assert |Hex(hash(data))| == 64;
    assert '.' !in HEX && '/' !in HEX && '.' !in SHA256 && '/' !in SHA256;
    assert FirstColon(k, 6);
  }

  lemma DigestRequestable(k: Key)
    requires IsDigest(k)
    ensures Requestable(k)
  {
  }

  lemma Started(hash: Hash, s: Store, k: Key, size: nat, ino: nat) returns (t: Store)
    requires k !in s.cache && k !in s.fetches && Requestable(k) && ValidKey(k) && ino !in s.inodes
    ensures Apply(hash, s, Start(k, size, ino)) == Some(t)
    ensures k in t.fetches && t.fetches[k].phase.Writing? && t.fetches[k].size == size
    ensures TmpKey(k) in t.names && t.names[TmpKey(k)] == t.fetches[k].ino
    ensures t.fetches[k].ino in t.inodes && t.inodes[t.fetches[k].ino] == []
  {
    hide TmpKey, Requestable, ValidKey;
    t := Apply(hash, s, Start(k, size, ino)).value;
  }

  lemma {:induction false} Written(hash: Hash, s: Store, k: Key, chunks: seq<Bytes>, rest: seq<Step>)
    returns (t: Store)
    requires k in s.fetches && s.fetches[k].phase.Writing? && s.fetches[k].ino in s.inodes
    ensures Continue(hash, s, ChunkSteps(k, chunks) + rest) == Continue(hash, t, rest)
    ensures t == s.(inodes := t.inodes) && s.fetches[k].ino in t.inodes
    ensures t.inodes[s.fetches[k].ino] == s.inodes[s.fetches[k].ino] + AllOf(chunks)
    decreases |chunks|
  {
    hide Apply, Continue, ChunkSteps, AllOf;
    var ino := s.fetches[k].ino;
    if chunks == [] {
      t := s;
      NoChunks(k, rest, s.inodes[ino]);
    } else {
      var s' := OneChunk(hash, s, k, chunks[0]);
      t := Written(hash, s', k, chunks[1..], rest);
      StepFirst(hash, s, s', Chunk(k, chunks[0]), ChunkSteps(k, chunks[1..]) + rest);
      FirstChunk(k, chunks, rest, s.inodes[ino]);
    }
  }

  lemma NoChunks(k: Key, rest: seq<Step>, held: Bytes)
    ensures ChunkSteps(k, []) + rest == rest && held + AllOf([]) == held
  {
  }

  lemma FirstChunk(k: Key, chunks: seq<Bytes>, rest: seq<Step>, held: Bytes)
    requires chunks != []
    ensures ChunkSteps(k, chunks) + rest == [Chunk(k, chunks[0])] + (ChunkSteps(k, chunks[1..]) + rest)
    ensures held + AllOf(chunks) == held + chunks[0] + AllOf(chunks[1..])
  {
  }

  lemma OneChunk(hash: Hash, s: Store, k: Key, bytes: Bytes) returns (t: Store)
    requires k in s.fetches && s.fetches[k].phase.Writing? && s.fetches[k].ino in s.inodes
    ensures Apply(hash, s, Chunk(k, bytes)) == Some(t)
    ensures t == s.(inodes := t.inodes) && s.fetches[k].ino in t.inodes
    ensures t.inodes[s.fetches[k].ino] == s.inodes[s.fetches[k].ino] + bytes
  {
    t := Apply(hash, s, Chunk(k, bytes)).value;
  }

  lemma StepFirst(hash: Hash, s: Store, t: Store, step: Step, rest: seq<Step>)
    requires Apply(hash, s, step) == Some(t)
    ensures Continue(hash, s, [step] + rest) == Continue(hash, t, rest)
  {
    hide Apply;
    assert ([step] + rest)[0] == step && ([step] + rest)[1..] == rest;
  }

  lemma Confirmed(hash: Hash, s: Store, k: Key) returns (t: Store)
    requires k in s.fetches && s.fetches[k].phase.Writing? && s.fetches[k].ino in s.inodes
    requires |s.inodes[s.fetches[k].ino]| == s.fetches[k].size && k == DigestOf(hash, s.inodes[s.fetches[k].ino])
    ensures Apply(hash, s, Check(k)) == Some(t) && t == s.(fetches := t.fetches)
    ensures k in t.fetches && t.fetches[k] == s.fetches[k].(phase := Verified)
  {
    hide DigestOf;
    t := Checked(s, k);
  }

  lemma Moved(hash: Hash, s: Store, k: Key) returns (t: Store)
    requires k in s.fetches && s.fetches[k].phase.Verified? && TmpKey(k) in s.names
    ensures Apply(hash, s, Rename(k)) == Some(t) && t.inodes == s.inodes && t.cache == s.cache && t.handles == s.handles
    ensures k in t.names && t.names[k] == s.names[TmpKey(k)]
    ensures k in t.fetches && t.fetches[k] == s.fetches[k].(phase := Renamed)
  {
    hide TmpKey;
    t := ApplyRename(s, k).value;
  }

  lemma FinishApplies(hash: Hash, s: Store, k: Key)
    requires k in s.fetches && s.fetches[k].phase.Renamed?
    ensures Apply(hash, s, Finish(k)) == Some(Finished(s, k))
  {
  }

  lemma ThreeSteps(hash: Hash, s: Store, s1: Store, s2: Store, s3: Store, a: Step, b: Step, c: Step)
    requires Apply(hash, s, a) == Some(s1) && Apply(hash, s1, b) == Some(s2) && Apply(hash, s2, c) == Some(s3)
    ensures Continue(hash, s, [a, b, c]) == Some(s3)
  {
    hide Apply;
    assert [a, b, c][1..] == [b, c] && [b, c][1..] == [c] && [c][1..] == [];
    assert Continue(hash, s3, []) == Some(s3);
    assert Continue(hash, s2, [c]) == Some(s3);
    assert Continue(hash, s1, [b, c]) == Some(s3);
  }

  /**
   A verified fetch can always go on: its file moves to the key's name, and if the temporary file was evicted
   the fetch ends with nothing under the key's name that was not there before.
   */
  lemma RenameOutcome(hash: Hash, s: Store, k: Key)
    requires Invariant(hash, s) && k in s.fetches && s.fetches[k].phase.Verified? && IsDigest(k)
    ensures var r := Apply(hash, s, Rename(k));
      && r.Some? && r.value.inodes == s.inodes && r.value.cache == s.cache && r.value.handles == s.handles
      && (if TmpKey(k) in s.names
          then && k in r.value.fetches && r.value.fetches[k].phase.Renamed? && TmpKey(k) !in r.value.names
               && k in r.value.names && Holds(hash, r.value, k, r.value.names[k])
          else k !in r.value.fetches && r.value.names == s.names)
  {
    hide DigestOf, IsDigest, Requestable, ValidKey;
    assert KeyOk(hash, s, k);
    assert TmpKey(k) != k;
  }

  /** A digest is fetched exactly when it is neither cached nor being fetched. */
  lemma FetchedOnce(hash: Hash, s: Store, data: Bytes, size: nat, ino: nat)
    requires ino !in s.inodes
    ensures var k := DigestOf(hash, data);
      Apply(hash, s, Start(k, size, ino)).Some? <==> k !in s.cache && k !in s.fetches
  {
    hide DigestOf, IsDigest, TmpKey, Requestable, ValidKey;
    DigestForm(hash, data);
    DigestRequestable(DigestOf(hash, data));
    DigestValid(hash, data);
  }

  /** A fetch can fail until its file is renamed; then its temporary file is gone and the key can be fetched again. */
  lemma FailFrees(hash: Hash, s: Store, k: Key)
    requires k in s.fetches
    ensures var r := Apply(hash, s, Fail(k));
      && (r.Some? <==> !s.fetches[k].phase.Renamed?)
      && (r.Some? ==> r.value == s.(names := r.value.names, fetches := s.fetches - {k})
                      && r.value.names == s.names - {TmpKey(k)})
  {
    hide TmpKey;
  }

  /** After a failed fetch another one with the right bytes succeeds. */
  lemma RetrySucceeds(hash: Hash, s: Store, chunks: seq<Bytes>, ino: nat)
    requires var k := DigestOf(hash, AllOf(chunks));
      Invariant(hash, s) && ino !in s.inodes && k in s.fetches && !s.fetches[k].phase.Renamed? && k !in s.cache
    ensures var k := DigestOf(hash, AllOf(chunks));
      var end := Continue(hash, s, [Fail(k)] + FetchSteps(k, chunks, ino));
      && end.Some? && k in end.value.cache && k in end.value.names
      && end.value.names[k] in end.value.inodes && end.value.inodes[end.value.names[k]] == AllOf(chunks)
  {
    hide DigestOf, IsDigest, TmpKey, Requestable, ValidKey, Invariant, Apply, AllOf, FetchSteps, Continue;
    var k := DigestOf(hash, AllOf(chunks));
    FailFrees(hash, s, k);
    var t := Apply(hash, s, Fail(k)).value;
    StepKeeps(hash, s, Fail(k));
    FetchSucceeds(hash, t, chunks, ino);
    StepFirst(hash, s, t, Fail(k), FetchSteps(k, chunks, ino));
  }

  /** What is cached can be evicted, and then fetched again. */
  lemma RefetchSucceeds(hash: Hash, s: Store, chunks: seq<Bytes>, ino: nat)
    requires var k := DigestOf(hash, AllOf(chunks));
      Invariant(hash, s) && ino !in s.inodes && k in s.cache && k !in s.fetches
    ensures var k := DigestOf(hash, AllOf(chunks));
      var end := Continue(hash, s, [Evict(k)] + FetchSteps(k, chunks, ino));
      && end.Some? && k in end.value.cache && k in end.value.names
      && end.value.names[k] in end.value.inodes && end.value.inodes[end.value.names[k]] == AllOf(chunks)
  {
    hide DigestOf, IsDigest, TmpKey, Requestable, ValidKey, Invariant, AllOf, FetchSteps, Continue;
    var k := DigestOf(hash, AllOf(chunks));
    var t := Evicted(s, k);
    StepKeeps(hash, s, Evict(k));
    FetchSucceeds(hash, t, chunks, ino);
    StepFirst(hash, s, t, Evict(k), FetchSteps(k, chunks, ino));
  }
}
