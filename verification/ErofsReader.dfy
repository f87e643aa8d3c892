/**
 The reader's loops (peerofs/src/disk.rs): the directory iterator with its cursor changed in
 place, and path lookup over it, each tied to the functions of module ErofsDisk.
 */
module ErofsReader {
  import opened Bytes
  import opened ErofsDisk

  class DirentsIterator {
    var data: Bytes
    var remaining: Option<Bytes>
    var i: nat
    var count: nat
    const blockSize: nat

    ghost predicate Valid()
      reads this
    {
      i <= count && blockSize >= 1
    }

    function At(): Cursor
      reads this
    {
      Cursor(data, remaining, i, count, blockSize)
    }

    constructor (block: Bytes, tail: Bytes, blockSize: nat)
      ensures At() == Cursor(block, Some(tail), 0, 0, blockSize)
    {
      data, remaining, i, count := block, Some(tail), 0, 0;
      this.blockSize := blockSize;
    }

    method ResetCount() returns (r: Result<(), ReadError>)
      modifies this
      ensures r.Ok? ==> old(At()).ResetCount() == Ok(At())
      ensures r.Err? ==> old(At()).ResetCount() == Err(r.error)
    {
      if data == [] {
        if remaining.Some? {
          data, remaining := remaining.value, None;
        }
        if data == [] {
          i, count := 0, 0;
          return Ok(());
        }
      }
      var dirent := ReadDirent(data);
      if dirent.None? { return Err(BadConversion); }
      var offset := dirent.value.nameOffset;
      if offset % DIRENT_SIZE != 0 { return Err(DirentBadSize); }
      i, count := 0, offset / DIRENT_SIZE;
      return Ok(());
    }

    method NextImpl() returns (r: Result<DirentItem, ReadError>)
      requires Valid() && i < count
      modifies this
      ensures r.Ok? ==> Valid() && old(At()).Next() == Ok((r.value, At()))
      ensures r.Err? ==> old(At()).Next() == Err(r.error)
    {
      hide ReadDirent, UpToNul;
      var dirent :- At().Get(i);
      if dirent.fileType > 7 { return Err(BadFileType); }
      var name: Bytes;
      if i + 1 < count {
        var next :- At().Get(i + 1);
        var slice := Slice(data, dirent.nameOffset, next.nameOffset);
        i := i + 1;
        if slice.None? { return Err(Oob); }
        name := slice.value;
      } else {
        var blockEnd := if |data| < blockSize then |data| else blockSize;
        var slice := Slice(data, dirent.nameOffset, blockEnd);
        if slice.None? { return Err(Oob); }
        data := data[blockEnd..];
        var _ :- ResetCount();
        name := BeforeZero(slice.value);
      }
      return Ok(DirentItem(dirent.diskId, dirent.fileType, name));
    }

    /** `Iterator::next` */
    method Next() returns (r: Option<Result<DirentItem, ReadError>>)
      requires Valid()
      modifies this
      ensures r.None? <==> old(i) == old(count)
      ensures r.None? ==> At() == old(At())
      ensures r.Some? && r.value.Ok? ==> Valid() && old(At()).Next() == Ok((r.value.value, At()))
      ensures r.Some? && r.value.Err? ==> old(At()).Next() == Err(r.value.error)
    {
      if i < count {
        var item := NextImpl();
        return Some(item);
      }
      return None;
    }
  }

  /** `position` of the first zero byte, and the slice before it. */
  method BeforeZero(slice: Bytes) returns (r: Bytes)
    ensures r == UpToNul(slice)
  {
    var k := 0;
    while k < |slice| && slice[k] != 0
      invariant 0 <= k <= |slice| && 0 !in slice[..k]
    {
      k := k + 1;
    }
    r := slice[..k];
    UpToNulIs(slice, k);
  }

  lemma {:induction false} UpToNulIs(s: Bytes, k: nat)
    requires k <= |s| && 0 !in s[..k] && (k < |s| ==> s[k] == 0)
    ensures UpToNul(s) == s[..k]
  {
    if k > 0 {
      assert s[0] == s[..k][0] && s[1..][..k - 1] == s[..k][1..];
      UpToNulIs(s[1..], k - 1);
      assert s[..k] == [s[0]] + s[1..][..k - 1];
    }
  }

  /** The inner loop of `lookup`: iterate until the name is met. */
  method FindNamed(it: DirentsIterator, name: Bytes) returns (r: Result<Option<DirentItem>, ReadError>)
    requires it.Valid()
    modifies it
    ensures r == FindEntry(old(it.At()), name)
  {
    while true
      invariant it.Valid() && FindEntry(it.At(), name) == FindEntry(old(it.At()), name)
      decreases it.At().Left(), it.count - it.i
    {
      var item := it.Next();
      if item.None? { return Ok(None); }
      if item.value.Err? { return Err(item.value.error); }
      if item.value.value.name == name { return Ok(Some(item.value.value)); }
    }
  }

  /** One component of `lookup`. */
  method StepInto(data: Bytes, sb: Superblock, cur: Inode, name: Bytes) returns (r: Result<Option<Inode>, ReadError>)
    ensures r == Step(data, sb, cur, name)
  {
    if FileTypeOf(cur) != Directory { return Err(NotDir); }
    var parts :- GetData(data, sb, cur);
    var it := new DirentsIterator(parts.0, parts.1, BlockSize(sb));
    var _ :- it.ResetCount();
    var found :- FindNamed(it, name);
    if found.None? { return Ok(None); }
    if found.value.diskId >= 0x1_0000_0000 { return Err(InodeTooBig); }
    var ino :- GetInode(data, sb, found.value.diskId);
    return Ok(Some(ino));
  }

  /** `Erofs::new`, then `lookup`: the loop over the components. */
  method LookupPath(data: Bytes, names: seq<Bytes>) returns (r: Result<Option<Inode>, ReadError>)
    ensures r == Lookup(data, names)
  {
    var sb :- OpenImage(data);
    var cur :- GetInode(data, sb, sb.rootDiskId);
    var k := 0;
    assert names[0..] == names;
    while k < |names|
      invariant 0 <= k <= |names| && Lookup(data, names) == LookupFrom(data, sb, cur, names[k..])
    {
      assert names[k..][1..] == names[k + 1..];
      var next :- StepInto(data, sb, cur, names[k]);
      if next.None? { return Ok(None); }
      cur := next.value;
      k := k + 1;
    }
    return Ok(Some(cur));
  }
}
