/**
 The bytes behind the builder's writer, and what stays put when some of them change.
 */
module ErofsImage {
  import opened Bytes

  /** The image holds `bs` at `off`. */
  predicate Has(img: Bytes, off: nat, bs: Bytes) {
    off + |bs| <= |img| && img[off..off + |bs|] == bs
  }

  /** `b` is `a`, changed at most in [lo, hi) and never shortened. */
  ghost predicate Kept(a: Bytes, b: Bytes, lo: int, hi: int) {
    |a| <= |b| && forall i :: 0 <= i < |a| && !(lo <= i < hi) ==> b[i] == a[i]
  }

  /** Writing at a position: bytes past the end are appended after a gap of zeros. */
  function WriteAt(img: Bytes, pos: nat, bs: Bytes): (r: Bytes)
    ensures Has(r, pos, bs) || bs == []
    ensures Kept(img, r, pos, pos + |bs|)
    ensures bs != [] ==> |r| >= pos + |bs|
  {
    if bs == [] then img
    else if pos > |img| then img + Zeros(pos - |img|) + bs
    else if pos + |bs| >= |img| then img[..pos] + bs
    else img[..pos] + bs + img[pos + |bs|..]
  }

  lemma KeptHas(a: Bytes, b: Bytes, lo: int, hi: int, off: nat, bs: Bytes)
    requires Kept(a, b, lo, hi) && Has(a, off, bs) && (off + |bs| <= lo || hi <= off)
    ensures Has(b, off, bs)
  {
    assert a[off..off + |bs|] == b[off..off + |bs|];
  }

  lemma KeptTransitive(a: Bytes, b: Bytes, c: Bytes, lo: int, mid: int, hi: int)
    requires Kept(a, b, lo, mid) && Kept(b, c, mid, hi) && lo <= mid <= hi
    ensures Kept(a, c, lo, hi)
  {
  }

  /** A write just below an earlier one. */
  lemma KeptBack(a: Bytes, b: Bytes, c: Bytes, lo: int, mid: int, hi: int)
    requires Kept(a, b, mid, hi) && Kept(b, c, lo, mid) && lo <= mid <= hi
    ensures Kept(a, c, lo, hi)
  {
  }

  lemma HasJoin(img: Bytes, off: nat, a: Bytes, b: Bytes)
    requires Has(img, off, a) && Has(img, off + |a|, b)
    ensures Has(img, off, a + b)
  {
    assert img[off..off + |a + b|] == img[off..off + |a|] + img[off + |a|..off + |a| + |b|];
  }

  /** Part of held bytes is held. */
  lemma HasPart(img: Bytes, off: nat, a: Bytes, b: Bytes, c: Bytes)
    requires Has(img, off, a + b + c)
    ensures Has(img, off + |a|, b)
  {
    var s := a + b + c;
    SliceOfSlice(img, off, off + |s|, |a|, |a| + |b|);
    SliceOfFront(a + b, c, |a|, |a| + |b|);
    SliceOfBack(a, b);
  }

  lemma HasPrefix(img: Bytes, off: nat, a: Bytes, b: Bytes)
    requires Has(img, off, b) && a <= b
    ensures Has(img, off, a)
  {
    assert img[off..off + |a|] == b[..|a|] == a;
  }

  /** Held bytes read by slicing. */
  lemma HasSlice(img: Bytes, off: nat, bs: Bytes)
    requires Has(img, off, bs)
    ensures img[off..] == bs + img[off + |bs|..]
  {
  }
}
