/**
 The files a builder has been given (peerofs/src/build.rs, the add operations): a map from
 path to bytes that the tree and the image represent together.
 */
module ErofsFiles {
  import opened Bytes
  import opened Paths
  import opened ErofsDisk
  import opened ErofsDirents
  import opened ErofsTree
  import opened ErofsPacking
  import opened ErofsImage
  import opened ErofsStages
  import opened ErofsReadBack

  type FileMap = map<seq<Bytes>, Bytes>

  ghost predicate FileOk(img: Bytes, root: Dir, files: FileMap, p: seq<Bytes>) {
    && (p in files <==> LeafAt(root, p).Some?)
    && (p in files ==> files[p] == LeafData(img, LeafAt(root, p).value.leaf))
  }

  /** The tree has leaves exactly at the paths of the map, with the mapped bytes. */
  ghost predicate FilesOk(img: Bytes, root: Dir, files: FileMap) {
    forall p :: FileOk(img, root, files, p)
  }

  /** What remains when something is put at `p`: a file there hides everything below. */
  function Without(files: FileMap, p: seq<Bytes>): FileMap {
    map q | q in files && !(p <= q) :: files[q]
  }

  lemma LeafDataKept(a: Bytes, b: Bytes, x: int, y: int, l: Leaf, hi: nat)
    requires Backed(l, hi) && Kept(a, b, x, y) && (BLOCK * hi <= x || y <= BLOCK)
    requires hi > 1 ==> BLOCK * hi <= |a|
    ensures LeafData(a, l) == LeafData(b, l)
  {
    var blockLen, begin := SizeTailLen(l.len).1, BLOCK * l.startBlock;
    if blockLen > 0 {
      assert begin + blockLen <= BLOCK * hi;
      assert a[begin..begin + blockLen] == b[begin..begin + blockLen];
    }
  }

  /** Writing outside the data blocks leaves every file as it was. */
  lemma FilesKept(a: Bytes, b: Bytes, x: int, y: int, root: Dir, files: FileMap, hi: nat)
    requires FilesOk(a, root, files) && Fresh(root, hi) && Kept(a, b, x, y) && (BLOCK * hi <= x || y <= BLOCK)
    requires hi > 1 ==> BLOCK * hi <= |a|
    ensures FilesOk(b, root, files)
  {
    forall p ensures FileOk(b, root, files, p) {
      assert FileOk(a, root, files, p);
      if p in files {
        LeafAtFresh(root, p, hi);
        LeafDataKept(a, b, x, y, LeafAt(root, p).value.leaf, hi);
      }
    }
  }

  lemma ComponentsPlain(raw: Bytes)
    ensures PlainComponents(Components(raw))
  {
    var segs, comps := Segments(raw), Components(raw);
    var tail := SegmentComponents(segs);
    var k := |comps| - |tail|;
    forall i | 0 <= i < |comps| && comps[i].Normal? ensures PlainName(comps[i].name) {
      assert i >= k && comps[i] == tail[i - k];
    }
  }

  function NamesOf(raw: Bytes): seq<Bytes> {
    PathNames(Components(raw))
  }

  /** Inserting a leaf: on success it is the file at its path, on failure no file changed. */
  lemma InsertFiles(img: Bytes, root: Dir, files: FileMap, raw: Bytes, n: Dirent, hi: nat)
    requires FilesOk(img, root, files) && Fresh(root, hi) && IsLeaf(n) && NodeFresh(n, hi)
    ensures var (root', r) := EditRaw(root, raw, Insert(n)); var p := NamesOf(raw);
      && Fresh(root', hi)
      && FilesOk(img, root', if r.Ok? then Without(files, p)[p := LeafData(img, n.leaf)] else files)
  {
    var (root', r) := EditRaw(root, raw, Insert(n));
    var comps := Components(raw);
    FreshSorted(root, hi);
    ComponentsPlain(raw);
    EditFresh(root, comps, Insert(n), hi);
    var files' := if r.Ok? then Without(files, NamesOf(raw))[NamesOf(raw) := LeafData(img, n.leaf)] else files;
    forall p ensures FileOk(img, root', files', p) {
      assert FileOk(img, root, files, p);
      if r.Ok? {
        InsertedLeaf(root, comps, n, p);
      } else if EditPath(root, comps, Insert(n)).1.Err? {
        FailedInsertKeepsLeaves(root, comps, n, p);
      }
    }
  }

  /** Upserting a directory changes no file. */
  lemma UpsertFiles(img: Bytes, root: Dir, files: FileMap, raw: Bytes, meta: Meta, hi: nat)
    requires FilesOk(img, root, files) && Fresh(root, hi)
    ensures var (root', r) := EditRaw(root, raw, Upsert(meta));
      Fresh(root', hi) && FilesOk(img, root', files)
  {
    var (root', r) := EditRaw(root, raw, Upsert(meta));
    var comps := Components(raw);
    FreshSorted(root, hi);
    ComponentsPlain(raw);
    EditFresh(root, comps, Upsert(meta), hi);
    forall p ensures FileOk(img, root', files, p) {
      assert FileOk(img, root, files, p);
      UpsertKeepsLeaves(root, comps, meta, p);
    }
  }

  /** The walks change no file. */
  lemma FilesGrow(img: Bytes, d: Dir, d': Dir, files: FileMap)
    requires FilesOk(img, d, files) && Grows(d, d')
    ensures FilesOk(img, d', files)
  {
    forall p ensures FileOk(img, d', files, p) {
      assert FileOk(img, d, files, p);
      LeafAtGrows(d, d', p);
    }
  }

  /** In a complete image every given file is found and read back. */
  lemma FilesReadBack(img: Bytes, sb: Superblock, root: Dir, files: FileMap, p: seq<Bytes>)
    requires Complete(img, sb, root) && FilesOk(img, root, files) && p in files
    ensures ReadPath(img, p) == Ok(Some(files[p]))
  {
    assert FileOk(img, root, files, p);
    LeafReadsBack(img, sb, root, p);
  }
}
