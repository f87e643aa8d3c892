/**
 Byte strings: little-endian numbers, records of little-endian fields, and the
 byte order that `BTreeMap<OsString, _>` keys are kept in.
 */
module Bytes {
  type byte = x: int | 0 <= x < 256
  type u16 = x: int | 0 <= x < 0x1_0000
  type u32 = x: int | 0 <= x < 0x1_0000_0000
  type u64 = x: int | 0 <= x < 0x1_0000_0000_0000_0000
  type Bytes = seq<byte>

  const SLASH: byte := 47
  const DOT: byte := 46

  datatype Option<+T> = None | Some(value: T)

  datatype Result<+T, +E> = Ok(value: T) | Err(error: E) {
    predicate IsFailure() { Err? }
    function PropagateFailure<U>(): Result<U, E> requires Err? { Err(error) }
    function Extract(): T requires Ok? { value }
  }

  function Zeros(n: nat): (r: Bytes)
    ensures |r| == n
    ensures forall i :: 0 <= i < n ==> r[i] == 0
  {
    seq(n, _ => 0)
  }

  /** `data.get(lo..hi)` of a Rust slice. */
  function Slice(s: Bytes, lo: nat, hi: nat): (r: Option<Bytes>)
    ensures r.Some? <==> lo <= hi <= |s|
    ensures r.Some? ==> r.value == s[lo..hi]
  {
    if lo <= hi <= |s| then Some(s[lo..hi]) else None
  }

  lemma SliceOfSlice<T>(s: seq<T>, a: nat, b: nat, lo: nat, hi: nat)
    requires a <= b <= |s| && lo <= hi <= b - a
    ensures s[a..b][lo..hi] == s[a + lo..a + hi]
  {
    assert forall i :: 0 <= i < hi - lo ==> s[a..b][lo..hi][i] == s[a..b][lo + i] == s[a + lo + i];
  }

  lemma SliceOfFront<T>(a: seq<T>, b: seq<T>, lo: nat, hi: nat)
    requires lo <= hi <= |a|
    ensures (a + b)[lo..hi] == a[lo..hi]
  {
  }

  lemma SliceOfBack<T>(a: seq<T>, b: seq<T>)
    ensures (a + b)[|a|..|a| + |b|] == b
  {
  }

  // ---------- little-endian numbers ----------

  function Pow256(k: nat): (r: nat)
    ensures r >= 1
  {
    if k == 0 then 1 else 256 * Pow256(k - 1)
  }

  function ToLE(n: nat, width: nat): (r: Bytes)
    ensures |r| == width
  {
    if width == 0 then [] else [n % 256] + ToLE(n / 256, width - 1)
  }

  function FromLE(s: Bytes): nat {
    if s == [] then 0 else s[0] + 256 * FromLE(s[1..])
  }

  lemma {:induction false} LERoundTrip(n: nat, width: nat)
    requires n < Pow256(width)
    ensures FromLE(ToLE(n, width)) == n
  {
    if width > 0 {
      LERoundTrip(n / 256, width - 1);
      assert ToLE(n, width)[1..] == ToLE(n / 256, width - 1);
    }
  }

  lemma {:induction false} FromLEBound(s: Bytes)
    ensures FromLE(s) < Pow256(|s|)
  {
    if s != [] { FromLEBound(s[1..]); }
  }

  /** Bytes of one width are determined by the number they spell. */
  lemma {:induction false} LEUnique(s: Bytes)
    ensures ToLE(FromLE(s), |s|) == s
  {
    if s != [] {
      LEUnique(s[1..]);
      assert s == [s[0]] + s[1..];
    }
  }

  lemma WidthBounds()
    ensures Pow256(1) == 256
    ensures Pow256(2) == 0x1_0000
    ensures Pow256(4) == 0x1_0000_0000
    ensures Pow256(8) == 0x1_0000_0000_0000_0000
  {
    assert Pow256(3) == 0x100_0000;
    assert Pow256(6) == 0x1_0000_0000_0000;
  }

  // ---------- fixed layouts of little-endian fields (`#[repr(C)]` structs) ----------

  datatype Fields = End | Field(width: nat, value: nat, rest: Fields)

  function Width(f: Fields): nat {
    if f.End? then 0 else f.width + Width(f.rest)
  }

  predicate Fits(f: Fields) {
    f.Field? ==> f.value < Pow256(f.width) && Fits(f.rest)
  }

  predicate SameShape(f: Fields, g: Fields) {
    if f.End? then g.End? else g.Field? && f.width == g.width && SameShape(f.rest, g.rest)
  }

  function Pack(f: Fields): (r: Bytes)
    ensures |r| == Width(f)
  {
    if f.End? then [] else ToLE(f.value, f.width) + Pack(f.rest)
  }

  /** `try_ref_from_prefix`: the fields of this shape, or nothing when the data is too short. */
  function Unpack(data: Bytes, shape: Fields): (r: Option<Fields>)
    ensures r.Some? <==> Width(shape) <= |data|
    ensures r.Some? ==> SameShape(shape, r.value)
  {
    if shape.End? then Some(End)
    else if |data| < shape.width then None
    else
      var rest := Unpack(data[shape.width..], shape.rest);
      if rest.None? then None else Some(Field(shape.width, FromLE(data[..shape.width]), rest.value))
  }

  lemma {:induction false} PackRoundTrip(f: Fields, shape: Fields, rest: Bytes)
    requires Fits(f) && SameShape(f, shape)
    ensures Unpack(Pack(f) + rest, shape) == Some(f)
  {
    if f.Field? {
      var head, tail := ToLE(f.value, f.width), Pack(f.rest) + rest;
      PackRoundTrip(f.rest, shape.rest, rest);
      LERoundTrip(f.value, f.width);
      var data := Pack(f) + rest;
      assert data == head + tail;
      assert data[..f.width] == head && data[f.width..] == tail;
    }
  }

  // ---------- byte order ----------

  predicate Less(a: Bytes, b: Bytes) {
    b != [] && (a == [] || a[0] < b[0] || (a[0] == b[0] && Less(a[1..], b[1..])))
  }

  predicate LessEq(a: Bytes, b: Bytes) {
    a == b || Less(a, b)
  }

  lemma {:induction false} LessIrreflexive(a: Bytes)
    ensures !Less(a, a)
  {
    if a != [] { LessIrreflexive(a[1..]); }
  }

  lemma {:induction false} LessTransitive(a: Bytes, b: Bytes, c: Bytes)
    requires Less(a, b) && Less(b, c)
    ensures Less(a, c)
  {
    if a != [] && a[0] == b[0] == c[0] { LessTransitive(a[1..], b[1..], c[1..]); }
  }

  lemma {:induction false} LessTotal(a: Bytes, b: Bytes)
    ensures Less(a, b) || a == b || Less(b, a)
  {
    if a != [] && b != [] && a[0] == b[0] {
      LessTotal(a[1..], b[1..]);
      assert a == [a[0]] + a[1..] && b == [b[0]] + b[1..];
    }
  }

  /** A proper prefix sorts before every extension of it. */
  lemma {:induction false} PrefixLess(a: Bytes, b: Bytes)
    requires a <= b && a != b
    ensures Less(a, b)
  {
    if a != [] { PrefixLess(a[1..], b[1..]); }
  }

  lemma {:induction false} CommonPrefixLess(p: Bytes, a: Bytes, b: Bytes)
    requires Less(a, b)
    ensures Less(p + a, p + b)
  {
    if p == [] {
      assert p + a == a && p + b == b;
    } else {
      CommonPrefixLess(p[1..], a, b);
      assert (p + a)[1..] == p[1..] + a && (p + b)[1..] == p[1..] + b;
    }
  }
}
