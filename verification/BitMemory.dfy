/** Integers packed into memory at one of eight widths: reading and writing one element, and opening a gap for one. */
module BitMemory {
  import opened Bits

  /** 0, 1, 2, 4, 8, 16, 32 or 64 bits. */
  predicate IsWidth(w: nat) {
    w <= 1 || (w <= 64 && w % 2 == 0 && IsWidth(w / 2))
  }

  lemma {:induction false} Widths(w: nat)
    ensures IsWidth(w) <==> w == 0 || w == 1 || w == 2 || w == 4 || w == 8 || w == 16 || w == 32 || w == 64
  {
    assert w == 64 || w == 32 || w == 16 || w == 8 || w == 4 || w == 2 ==> IsWidth(w);
    if w > 1 && IsWidth(w) {
      Widths(w / 2);
    }
  }

  const INT64_MIN: int := -0x8000_0000_0000_0000
  const INT64_MAX: int := 0x7FFF_FFFF_FFFF_FFFF

  predicate IsInt64(v: int) {
    INT64_MIN <= v <= INT64_MAX
  }

  function LBound(w: nat): int
    requires IsWidth(w)
  {
    if w == 32 then -0x8000_0000
    else if w == 16 then -0x8000
    else if w < 8 then 0
    else if w == 8 then -0x80
    else INT64_MIN
  }

  function UBound(w: nat): int
    requires IsWidth(w)
  {
    if w == 32 then 0x7FFF_FFFF
    else if w == 16 then 0x7FFF
    else if w == 0 then 0
    else if w == 1 then 1
    else if w == 2 then 3
    else if w == 4 then 15
    else if w == 8 then 0x7F
    else INT64_MAX
  }

  predicate Fits(w: nat, v: int)
    requires IsWidth(w)
  {
    LBound(w) <= v <= UBound(w)
  }

  lemma PowersOfTwo()
    ensures Pow2(0) == 1 && Pow2(1) == 2 && Pow2(2) == 4 && Pow2(4) == 16 && Pow2(7) == 0x80 && Pow2(8) == 0x100
    ensures Pow2(15) == 0x8000 && Pow2(16) == 0x1_0000 && Pow2(31) == 0x8000_0000 && Pow2(32) == 0x1_0000_0000
    ensures Pow2(63) == 0x8000_0000_0000_0000 && Pow2(64) == 0x1_0000_0000_0000_0000
  {
    assert Pow2(15) == 0x8000;
    assert Pow2(23) == 0x80_0000;
    assert Pow2(31) == 0x8000_0000;
    assert Pow2(39) == 0x80_0000_0000;
    assert Pow2(47) == 0x8000_0000_0000;
    assert Pow2(55) == 0x80_0000_0000_0000;
    assert Pow2(63) == 0x8000_0000_0000_0000;
  }

  /** The bounds are the ranges of unsigned numbers below a byte and of two's complement from a byte on. */
  lemma BoundsArePowers(w: nat)
    requires IsWidth(w)
    ensures w < 8 ==> LBound(w) == 0 && UBound(w) == Pow2(w) - 1
    ensures w >= 8 ==> LBound(w) == -(Pow2(w - 1) as int) && UBound(w) == Pow2(w - 1) - 1 && Pow2(w) == 2 * Pow2(w - 1)
  {
    Widths(w);
    PowersOfTwo();
  }

  /** The width array.cpp computes for a value. */
  function BitWidth(v: int): (w: nat)
    requires IsInt64(v)
  {
    if 0 <= v < 16 then
      if v == 0 then 0 else if v == 1 then 1 else if v < 4 then 2 else 4
    else
      var u := if v < 0 then -v - 1 else v;
      if u / 0x8000_0000 != 0 then 64 else if u / 0x8000 != 0 then 32 else if u / 0x80 != 0 then 16 else 8
  }

  /** It is the smallest width that holds the value. */
  lemma BitWidthLeast(v: int, w: nat)
    requires IsInt64(v) && IsWidth(w)
    ensures IsWidth(BitWidth(v)) && (Fits(w, v) <==> BitWidth(v) <= w)
  {
    Widths(w);
    Widths(BitWidth(v));
  }

  // ---- One element ----

  /** The value of a field of w bits. */
  function Decode(s: seq<bool>): int {
    if |s| < 8 || FromBits(s) < Pow2(|s| - 1) then FromBits(s) else FromBits(s) - Pow2(|s|)
  }

  /** The field for a value: its low w bits in two's complement. */
  function Encode(w: nat, v: int): (s: seq<bool>)
    ensures |s| == w
  {
    if w == 0 then [] else [v % 2 == 1] + Encode(w - 1, v / 2)
  }

  lemma {:induction false} EncodeValue(w: nat, v: int)
    requires -(Pow2(w) as int) <= v < Pow2(w)
    ensures FromBits(Encode(w, v)) == if v < 0 then v + Pow2(w) else v
  {
    if w > 0 {
      EncodeValue(w - 1, v / 2);
      assert Encode(w, v)[1..] == Encode(w - 1, v / 2);
    }
  }

  lemma {:induction false} DecodeEncode(w: nat, v: int)
    requires IsWidth(w) && Fits(w, v)
    ensures Decode(Encode(w, v)) == v
  {
    BoundsArePowers(w);
    EncodeValue(w, v);
  }

  /** A field of w bits keeps the value. */
  ghost predicate Holds(w: nat, v: int) {
    Decode(Encode(w, v)) == v
  }

  lemma {:induction false} DecodeFits(s: seq<bool>)
    requires IsWidth(|s|)
    ensures Fits(|s|, Decode(s))
  {
    BoundsArePowers(|s|);
    FromBound(s);
  }

  /** A field is determined by its value. */
  lemma {:induction false} DecodeEqual(s: seq<bool>, t: seq<bool>)
    requires |s| == |t| && IsWidth(|s|) && Decode(s) == Decode(t)
    ensures s == t
  {
    BoundsArePowers(|s|);
    FromBound(s);
    FromBound(t);
    FromEqual(s, t);
  }

  function Slice(bits: seq<bool>, pos: nat, n: nat): (s: seq<bool>)
    requires pos + n <= |bits|
  {
    bits[pos..pos + n]
  }

  function Put(bits: seq<bool>, pos: nat, s: seq<bool>): (r: seq<bool>)
    requires pos + |s| <= |bits|
    ensures |r| == |bits|
  {
    bits[..pos] + s + bits[pos + |s|..]
  }

  /** Where element i starts: i * w, as a sum. */
  function Pos(w: nat, i: nat): nat {
    if i == 0 then 0 else Pos(w, i - 1) + w
  }

  lemma {:induction false} PosIs(w: nat, i: nat)
    ensures Pos(w, i) == i * w
  {
    if i > 0 {
      PosIs(w, i - 1);
    }
  }

  lemma {:induction false} PosMono(w: nat, i: nat, j: nat)
    requires i <= j
    ensures Pos(w, i) <= Pos(w, j) && (i < j ==> Pos(w, i) + w <= Pos(w, j))
    decreases j
  {
    if i < j {
      PosMono(w, i, j - 1);
    }
  }

  lemma {:induction false} PosAdd(w: nat, i: nat, d: nat)
    ensures Pos(w, i + d) == Pos(w, i) + Pos(w, d)
  {
    if d > 0 {
      PosAdd(w, i, d - 1);
    }
  }

  function Get(bits: seq<bool>, w: nat, i: nat): int
    requires Pos(w, i) + w <= |bits|
  {
    Decode(Slice(bits, Pos(w, i), w))
  }

  /** Byte k of memory. */
  function Byte(bits: seq<bool>, k: nat): (s: seq<bool>)
    requires 8 * k + 8 <= |bits|
    ensures |s| == 8
  {
    Slice(bits, 8 * k, 8)
  }

  /** The low w bits of a byte set. */
  function LowMask(w: nat): (s: seq<bool>)
    ensures |s| == 8
  {
    seq(8, i => i < w)
  }

  lemma WholeBytes(size: nat)
    requires size % 64 == 0
    ensures size % 8 == 0
  {
    EightTimes(8 * (size / 64));
  }

  lemma EightTimes(x: nat)
    ensures 8 * x % 8 == 0
  {
  }

  /** A byte that starts in memory ends in memory. */
  lemma ByteInside(k: nat, size: nat)
    requires size % 8 == 0 && 8 * k < size
    ensures 8 * k + 8 <= size
  {
  }

  lemma BitInByte(i: nat)
    ensures 8 * (i / 8) + i % 8 == i && i % 8 + 1 <= 8
  {
  }

  lemma PairInByte(i: nat)
    ensures 8 * (i / 4) + i % 4 * 2 == i * 2 && i % 4 * 2 + 2 <= 8
  {
  }

  lemma NibbleInByte(i: nat)
    ensures 8 * (i / 2) + i % 2 * 4 == i * 4 && i % 2 * 4 + 4 <= 8
  {
  }

  /** A field below a byte lies in one byte, and that byte in memory. */
  lemma InByte(w: nat, i: nat, size: nat)
    requires (w == 1 || w == 2 || w == 4) && Pos(w, i) + w <= size && size % 64 == 0
    ensures var per := 8 / w;
            8 * (i / per) + i % per * w == Pos(w, i) && i % per * w + w <= 8 && 8 * (i / per) + 8 <= size
  {
    PosIs(w, i);
    WholeBytes(size);
    if w == 1 {
      BitInByte(i);
      ByteInside(i / 8, size);
    } else if w == 2 {
      PairInByte(i);
      ByteInside(i / 4, size);
    } else {
      NibbleInByte(i);
      ByteInside(i / 2, size);
    }
  }

  /** The field of a byte, shifted down and masked. */
  function Field(byte: seq<bool>, w: nat, at: nat): (r: seq<bool>)
    requires |byte| == 8
    ensures |r| == 8
  {
    And(Shr(byte, at), LowMask(w))
  }

  /** get_direct: below a byte, shift and mask the byte; otherwise load. */
  method GetDirect(bits: seq<bool>, w: nat, i: nat) returns (v: int)
    requires IsWidth(w) && Pos(w, i) + w <= |bits| && |bits| % 64 == 0
    ensures v == Get(bits, w, i)
  {
    Widths(w);
    if w == 0 {
      v := 0;
    } else if w < 8 {
      v := GetField(bits, w, i);
    } else {
      PosIs(w, i);
      v := Decode(Slice(bits, i * w, w));
    }
  }

  method GetField(bits: seq<bool>, w: nat, i: nat) returns (v: nat)
    requires (w == 1 || w == 2 || w == 4) && Pos(w, i) + w <= |bits| && |bits| % 64 == 0
    ensures v == Get(bits, w, i)
  {
    InByte(w, i, |bits|);
    var per := 8 / w;
    var k, at := i / per, i % per * w;
    FieldOf(bits, k, w, at);
    v := FromBits(Field(Byte(bits, k), w, at));
  }

  lemma FieldBit(bits: seq<bool>, k: nat, w: nat, at: nat, b: nat)
    requires 8 * k + 8 <= |bits| && at + w <= 8 && b < 8
    ensures Field(Byte(bits, k), w, at)[b] == (b < w && bits[8 * k + at + b])
  {
  }

  lemma {:induction false} FieldOf(bits: seq<bool>, k: nat, w: nat, at: nat)
    requires 8 * k + 8 <= |bits| && at + w <= 8
    ensures FromBits(Field(Byte(bits, k), w, at)) == FromBits(Slice(bits, 8 * k + at, w))
  {
    var l, r := Field(Byte(bits, k), w, at), Slice(bits, 8 * k + at, w);
    forall b: nat | b < 8 ensures l[b] == (b < w && bits[8 * k + at + b]) {
      FieldBit(bits, k, w, at, b);
    }
    assert l[..w] == r;
    LowOf(l, r);
  }

  /** Zeros at the top do not count. */
  lemma {:induction false} LowOf(r: seq<bool>, s: seq<bool>)
    requires |s| <= |r| && r[..|s|] == s && forall k :: |s| <= k < |r| ==> !r[k]
    ensures FromBits(r) == FromBits(s)
  {
    assert r == s + r[|s|..];
    FromConcat(s, r[|s|..]);
    ZeroBits(r[|s|..]);
  }

  /** The byte set_direct stores: the old one with w bits at `at` replaced. */
  function Merged(byte: seq<bool>, w: nat, at: nat, v: seq<bool>): (r: seq<bool>)
    requires |byte| == 8 && |v| == 8
    ensures |r| == 8
  {
    Or(And(byte, Not(Shl(LowMask(w), at))), Shl(And(v, LowMask(w)), at))
  }

  /** set_direct: below a byte, read the byte, change w of its bits and store it; otherwise store the low w bits. */
  method SetDirect(bits: seq<bool>, w: nat, i: nat, v: int) returns (r: seq<bool>)
    requires IsWidth(w) && Pos(w, i) + w <= |bits| && |bits| % 64 == 0
    ensures r == Put(bits, Pos(w, i), Encode(w, v))
  {
    Widths(w);
    if w == 0 {
      r := bits;
      assert r == Put(bits, Pos(w, i), Encode(w, v));
    } else if w < 8 {
      r := SetField(bits, w, i, v);
    } else {
      PosIs(w, i);
      r := Put(bits, i * w, Encode(w, v));
    }
  }

  method SetField(bits: seq<bool>, w: nat, i: nat, v: int) returns (r: seq<bool>)
    requires (w == 1 || w == 2 || w == 4) && Pos(w, i) + w <= |bits| && |bits| % 64 == 0
    ensures r == Put(bits, Pos(w, i), Encode(w, v))
  {
    InByte(w, i, |bits|);
    var per := 8 / w;
    var k, at := i / per, i % per * w;
    var byte := Byte(bits, k);
    EncodeLow(v, w, 8);
    r := Put(bits, 8 * k, Merged(byte, w, at, Encode(8, v)));
    MergedPut(bits, k, w, at, Encode(8, v));
  }

  lemma {:induction false} EncodeLow(v: int, n: nat, m: nat)
    requires n <= m
    ensures Encode(m, v)[..n] == Encode(n, v)
    decreases n
  {
    if n > 0 {
      EncodeLow(v / 2, n - 1, m - 1);
    }
  }

  lemma MergedPut(bits: seq<bool>, k: nat, w: nat, at: nat, v: seq<bool>)
    requires 8 * k + 8 <= |bits| && |v| == 8 && at + w <= 8
    ensures Put(bits, 8 * k, Merged(Byte(bits, k), w, at, v)) == Put(bits, 8 * k + at, v[..w])
  {
    var l, r := Put(bits, 8 * k, Merged(Byte(bits, k), w, at, v)), Put(bits, 8 * k + at, v[..w]);
    forall b: nat | b < |bits| ensures l[b] == r[b] {
      if 8 * k <= b < 8 * k + 8 {
        MergedBit(Byte(bits, k), w, at, v, b - 8 * k);
      }
    }
  }

  lemma MergedBit(byte: seq<bool>, w: nat, at: nat, v: seq<bool>, j: nat)
    requires |byte| == 8 && |v| == 8 && at + w <= 8 && j < 8
    ensures Merged(byte, w, at, v)[j] == if at <= j < at + w then v[j - at] else byte[j]
  {
  }

  // ---- Runs of elements ----

  /** The elements from..end of memory at one width. */
  ghost function Run(bits: seq<bool>, w: nat, from: nat, end: nat): seq<int>
    requires from <= end && Pos(w, end) <= |bits|
    decreases end
  {
    if from == end then [] else Run(bits, w, from, end - 1) + [Get(bits, w, end - 1)]
  }

  lemma {:induction false} RunSize(bits: seq<bool>, w: nat, from: nat, end: nat)
    requires from <= end && Pos(w, end) <= |bits|
    ensures |Run(bits, w, from, end)| == end - from
    decreases end
  {
    if from < end {
      RunSize(bits, w, from, end - 1);
    }
  }

  lemma {:induction false} RunAt(bits: seq<bool>, w: nat, from: nat, end: nat, i: nat)
    requires from <= i < end && Pos(w, end) <= |bits|
    ensures Pos(w, i) + w <= |bits| && |Run(bits, w, from, end)| == end - from
    ensures Run(bits, w, from, end)[i - from] == Get(bits, w, i)
    decreases end
  {
    PosMono(w, i, end);
    RunSize(bits, w, from, end);
    RunSize(bits, w, from, end - 1);
    if i < end - 1 {
      RunAt(bits, w, from, end - 1, i);
    }
  }

  lemma {:induction false} RunSplit(bits: seq<bool>, w: nat, from: nat, mid: nat, end: nat)
    requires from <= mid <= end && Pos(w, end) <= |bits|
    ensures Pos(w, mid) <= |bits| && Run(bits, w, from, end) == Run(bits, w, from, mid) + Run(bits, w, mid, end)
    decreases end
  {
    if mid < end {
      RunSplit(bits, w, from, mid, end - 1);
    }
  }

  /** The bits a..b of memory are those of `bits'` moved up by d. */
  ghost predicate Moved(bits: seq<bool>, bits': seq<bool>, a: nat, b: nat, d: nat) {
    b <= |bits| && b + d <= |bits'| && forall k :: a <= k < b ==> bits'[k + d] == bits[k]
  }

  lemma SliceMoved(bits: seq<bool>, bits': seq<bool>, p: nat, n: nat, q: nat)
    requires Moved(bits, bits', p, p + n, q)
    ensures Slice(bits', p + q, n) == Slice(bits, p, n)
  {
    var s, s' := Slice(bits, p, n), Slice(bits', p + q, n);
    forall k | 0 <= k < n ensures s'[k] == s[k] {
      assert bits'[(p + k) + q] == bits[p + k];
    }
  }

  /** Where whole elements have moved up by d elements, so has the run they form. */
  lemma {:induction false} RunMoved(bits: seq<bool>, bits': seq<bool>, w: nat, from: nat, end: nat, d: nat)
    requires from <= end && Pos(w, end) <= |bits| && Pos(w, end + d) <= |bits'|
    requires Moved(bits, bits', Pos(w, from), Pos(w, end), Pos(w, d))
    ensures Run(bits', w, from + d, end + d) == Run(bits, w, from, end)
    decreases end
  {
    if from < end {
      var i: nat := end - 1;
      PosMono(w, from, i);
      OneMoved(bits, bits', w, i, d);
      assert Pos(w, end + d) == Pos(w, i + d) + w;
      RunMoved(bits, bits', w, from, i, d);
    }
  }

  lemma {:induction false} OneMoved(bits: seq<bool>, bits': seq<bool>, w: nat, i: nat, d: nat)
    requires Moved(bits, bits', Pos(w, i), Pos(w, i) + w, Pos(w, d))
    ensures Pos(w, i + d) + w <= |bits'| && Get(bits', w, i + d) == Get(bits, w, i)
  {
    PosAdd(w, i, d);
    SliceMoved(bits, bits', Pos(w, i), w, Pos(w, d));
  }
}
