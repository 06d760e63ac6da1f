/** A word seen as lanes of w bits: the tricks that find a lane without looking at each. */
module Lanes {
  import opened Bits
  import opened BitMemory

  const BITS: nat := 64

  /** How many lanes of w bits a word has: 64 / w. */
  function Count(w: nat): nat
    requires w > 0
    decreases BITS - w
  {
    if w >= BITS then 1 else 2 * Count(2 * w)
  }

  lemma {:induction false} CountOk(w: nat)
    requires IsWidth(w) && w > 0
    ensures Pos(w, Count(w)) == BITS && Count(w) > 0
  {
    CountIs(w);
    Widths(w);
    PosIs(w, Count(w));
  }

  lemma {:induction false} CountIs(w: nat)
    requires IsWidth(w) && w > 0
    ensures Count(w) == BITS / w
  {
    Widths(w);
    assert Count(32) == 2 && Count(16) == 4 && Count(8) == 8 && Count(4) == 16 && Count(2) == 32 && Count(1) == 64;
  }

  /** Lane i of a word. */
  function Lane(v: seq<bool>, w: nat, i: nat): (s: seq<bool>)
    requires Pos(w, i) + w <= |v|
    ensures |s| == w
  {
    Slice(v, Pos(w, i), w)
  }

  ghost predicate ZeroLane(v: seq<bool>, w: nat, i: nat)
    requires Pos(w, i) + w <= |v|
  {
    FromBits(Lane(v, w, i)) == 0
  }

  /** The same lane n times over. */
  function Repeat(s: seq<bool>, n: nat): (r: seq<bool>)
    ensures |r| == Pos(|s|, n)
  {
    if n == 0 then [] else Repeat(s, n - 1) + s
  }

  lemma {:induction false} RepeatAt(s: seq<bool>, n: nat, i: nat, b: nat)
    requires i < n && b < |s|
    ensures Pos(|s|, i) + |s| <= Pos(|s|, n) && Repeat(s, n)[Pos(|s|, i) + b] == s[b]
    decreases n
  {
    PosMono(|s|, i, n);
    if i < n - 1 {
      RepeatAt(s, n - 1, i, b);
    }
  }

  lemma {:induction false} RepeatLane(s: seq<bool>, n: nat, i: nat)
    requires i < n
    ensures Pos(|s|, i) + |s| <= Pos(|s|, n) && Lane(Repeat(s, n), |s|, i) == s
  {
    PosMono(|s|, i, n);
    forall b | 0 <= b < |s| ensures Lane(Repeat(s, n), |s|, i)[b] == s[b] {
      RepeatAt(s, n, i, b);
    }
  }

  /** Repeating a lane is multiplying it by all ones divided by one lane of ones. */
  lemma {:induction false} RepeatValue(s: seq<bool>, n: nat)
    ensures FromBits(Repeat(s, n)) * (Pow2(|s|) - 1) == (Pow2(Pos(|s|, n)) - 1) * FromBits(s)
  {
    if n > 0 {
      RepeatValue(s, n - 1);
      FromConcat(Repeat(s, n - 1), s);
      Pow2Add(Pos(|s|, n - 1), |s|);
      Telescope(FromBits(Repeat(s, n - 1)), Pow2(Pos(|s|, n - 1)), FromBits(s), Pow2(|s|));
    }
  }

  lemma Telescope(r: int, p: int, x: int, b: int)
    requires r * (b - 1) == (p - 1) * x
    ensures (r + p * x) * (b - 1) == (p * b - 1) * x
  {
    calc {
      (r + p * x) * (b - 1);
      r * (b - 1) + p * x * (b - 1);
      (p - 1) * x + p * x * (b - 1);
      { assert (p - 1) * x == p * x - x && p * x * (b - 1) == p * x * b - p * x; }
      p * x * b - x;
      { assert p * x * b == p * b * x; }
      (p * b - 1) * x;
    }
  }

  function One(w: nat): (s: seq<bool>)
    requires w > 0
    ensures |s| == w
  {
    seq(w, b => b == 0)
  }

  /** The lowest bit of every lane set: lower_bits. */
  function Lower(w: nat): (s: seq<bool>)
    requires IsWidth(w) && w > 0
    ensures |s| == BITS
  {
    CountOk(w);
    Repeat(One(w), Count(w))
  }

  function Top(w: nat): (s: seq<bool>)
    requires w > 0
    ensures |s| == w
  {
    seq(w, b => b == w - 1)
  }

  /** The highest bit of every lane set; UpperIsShifted shows that it is lower_bits shifted up. */
  function Upper(w: nat): (s: seq<bool>)
    requires IsWidth(w) && w > 0
    ensures |s| == BITS
  {
    CountOk(w);
    Repeat(Top(w), Count(w))
  }

  predicate Nonzero(v: seq<bool>) {
    exists i :: 0 <= i < |v| && v[i]
  }

  /** test_zero: some lane is zero. */
  predicate TestZero(v: seq<bool>, w: nat)
    requires |v| == BITS && IsWidth(w) && w > 0
  {
    Nonzero(And(And(Sub(v, Lower(w)), Not(v)), Upper(w)))
  }

  lemma {:induction false} TopAt(w: nat, n: nat, i: nat, b: nat)
    requires i < n && b < w
    ensures Pos(w, i) + w <= Pos(w, n) && (Repeat(Top(w), n)[Pos(w, i) + b] <==> b == w - 1)
  {
    RepeatAt(Top(w), n, i, b);
  }

  /** Bit `at` of a lane pattern that is repeated and shifted so that the low bit of a lane becomes its top bit. */
  lemma {:induction false} ShiftedOnes(w: nat, n: nat, i: nat, b: nat)
    requires b < w && i < n
    ensures Pos(w, i) + w <= Pos(w, n) && (Shl(Repeat(One(w), n), w - 1)[Pos(w, i) + b] <==> b == w - 1)
  {
    PosMono(w, i, n);
    if b == w - 1 {
      RepeatAt(One(w), n, i, 0);
    } else if i > 0 {
      var k: nat, c := i - 1, b + 1;
      RepeatAt(One(w), n, k, c);
      assert Pos(w, i) == Pos(w, k) + w;
    }
  }

  lemma {:induction false} UpperIsShifted(w: nat)
    requires IsWidth(w) && w > 0
    ensures Upper(w) == Shl(Lower(w), w - 1)
  {
    CountOk(w);
    var l, r := Upper(w), Shl(Lower(w), w - 1);
    forall b | 0 <= b < BITS ensures l[b] == r[b] {
      var i := LaneOfTo(w, b, Count(w));
      TopAt(w, Count(w), i, b - Pos(w, i));
      ShiftedOnes(w, Count(w), i, b - Pos(w, i));
    }
  }

  // ---- The lanes of a difference ----

  /** Taking 1 from a field that is not zero borrows nothing. */
  lemma {:induction false} BorrowOut(a: seq<bool>, b: seq<bool>, p: nat, w: nat)
    requires |a| == |b| && p + w <= |a| && !Borrow(a, b, p)
    requires FromBits(Slice(b, p, w)) == 1 && FromBits(Slice(a, p, w)) != 0
    ensures !Borrow(a, b, p + w)
  {
    SubAt(a, b, p, w);
    FromBound(Slice(Sub(a, b), p, w));
    FromBound(Slice(a, p, w));
  }

  /** Each of the first n lanes holds the number 1. */
  ghost predicate AllOne(v: seq<bool>, w: nat, n: nat) {
    n == 0 || (AllOne(v, w, n - 1) && Pos(w, n - 1) + w <= |v| && FromBits(Lane(v, w, n - 1)) == 1)
  }

  lemma {:induction false} RepeatOnes(w: nat, m: nat, n: nat)
    requires w > 0 && m <= n
    ensures AllOne(Repeat(One(w), n), w, m)
  {
    if m > 0 {
      RepeatOnes(w, m - 1, n);
      RepeatLane(One(w), n, m - 1);
      OneIsOne(w);
    }
  }

  lemma {:induction false} OneIsOne(w: nat)
    requires w > 0
    ensures FromBits(One(w)) == 1
  {
    ZeroBits(One(w)[1..]);
  }

  /** As long as the lanes below are not zero, nothing is borrowed from this one. */
  lemma {:induction false} NoBorrow(v: seq<bool>, low: seq<bool>, w: nat, i: nat)
    requires |v| == |low| && AllOne(low, w, i) && NoHits(true, v, w, i)
    ensures Pos(w, i) <= |v| && !Borrow(v, low, Pos(w, i))
  {
    if i > 0 {
      NoBorrow(v, low, w, i - 1);
      BorrowOut(v, low, Pos(w, i - 1), w);
    }
  }

  /** Taking 1 from a field sets a clear top bit exactly if the field is zero. */
  lemma {:induction false} BorrowTop(a: seq<bool>, b: seq<bool>, p: nat, w: nat)
    requires |a| == |b| && w > 0 && p + w <= |a| && !Borrow(a, b, p) && FromBits(Slice(b, p, w)) == 1
    ensures (Sub(a, b)[p + w - 1] && !a[p + w - 1]) <==> FromBits(Slice(a, p, w)) == 0
  {
    var d, l := Slice(Sub(a, b), p, w), Slice(a, p, w);
    SubAt(a, b, p, w);
    TopBit(d);
    TopBit(l);
    FromBound(d);
    assert Pow2(w) == 2 * Pow2(w - 1);
  }

  /** The bit test_zero looks at in lane i, if no lane below is zero. */
  lemma {:induction false} TopOfLane(v: seq<bool>, w: nat, n: nat, i: nat)
    requires w > 0 && |v| == Pos(w, n) && i < n && NoHits(true, v, w, i)
    ensures Pos(w, i) + w <= |v|
    ensures var at := Pos(w, i) + w - 1;
            (Sub(v, Repeat(One(w), n))[at] && !v[at]) <==> ZeroLane(v, w, i)
  {
    PosMono(w, i, n);
    RepeatOnes(w, i, n);
    NoBorrow(v, Repeat(One(w), n), w, i);
    RepeatLane(One(w), n, i);
    OneIsOne(w);
    BorrowTop(v, Repeat(One(w), n), Pos(w, i), w);
  }

  lemma {:induction false} LaneOfTo(w: nat, b: nat, n: nat) returns (i: nat)
    requires b < Pos(w, n)
    ensures i < n && Pos(w, i) <= b < Pos(w, i) + w
  {
    if b < Pos(w, n - 1) {
      i := LaneOfTo(w, b, n - 1);
    } else {
      i := n - 1;
    }
  }

  lemma {:induction false} LaneIn(w: nat, i: nat)
    requires IsWidth(w) && w > 0 && i < Count(w)
    ensures Pos(w, i) + w <= BITS
  {
    CountOk(w);
    PosMono(w, i, Count(w));
  }

  /** The word test_zero computes, for n lanes. */
  ghost function ZeroTops(v: seq<bool>, w: nat, n: nat): seq<bool>
    requires w > 0 && |v| == Pos(w, n)
  {
    And(And(Sub(v, Repeat(One(w), n)), Not(v)), Repeat(Top(w), n))
  }

  lemma MaskedDifference(d: seq<bool>, v: seq<bool>, upper: seq<bool>, at: nat)
    requires |d| == |v| == |upper| && at < |v|
    ensures And(And(d, Not(v)), upper)[at] == (d[at] && !v[at] && upper[at])
  {
  }

  lemma {:induction false} ZeroTopAt(v: seq<bool>, w: nat, n: nat, i: nat, b: nat)
    requires w > 0 && |v| == Pos(w, n) && i < n && b < w && NoHits(true, v, w, i)
    ensures Pos(w, i) + w <= |v| && (ZeroTops(v, w, n)[Pos(w, i) + b] <==> b == w - 1 && ZeroLane(v, w, i))
  {
    TopAt(w, n, i, b);
    MaskedDifference(Sub(v, Repeat(One(w), n)), v, Repeat(Top(w), n), Pos(w, i) + b);
    TopOfLane(v, w, n, i);
  }

  lemma {:induction false} ZeroTopsNone(v: seq<bool>, w: nat, n: nat)
    requires w > 0 && |v| == Pos(w, n) && NoHits(true, v, w, n)
    ensures !Nonzero(ZeroTops(v, w, n))
  {
    var m := ZeroTops(v, w, n);
    forall b | 0 <= b < |m| ensures !m[b] {
      var i := LaneOfTo(w, b, n);
      NoHitsLess(true, v, w, i, n);
      NoHitsAt(true, v, w, i, n);
      ZeroTopAt(v, w, n, i, b - Pos(w, i));
    }
  }

  lemma {:induction false} ZeroTopsSome(v: seq<bool>, w: nat, n: nat, i: nat)
    requires w > 0 && |v| == Pos(w, n) && i < n && NoHits(true, v, w, i) && Pos(w, i) + w <= |v| && ZeroLane(v, w, i)
    ensures Nonzero(ZeroTops(v, w, n))
  {
    ZeroTopAt(v, w, n, i, w - 1);
    assert ZeroTops(v, w, n)[Pos(w, i) + (w - 1)];
  }

  /** The first zero lane among the first n, if there is one. */
  lemma {:induction false} FirstZero(v: seq<bool>, w: nat, n: nat) returns (i: nat)
    requires Pos(w, n) <= |v|
    ensures i <= n && NoHits(true, v, w, i) && (i < n ==> Pos(w, i) + w <= |v| && ZeroLane(v, w, i))
  {
    i := 0;
    if n > 0 {
      i := FirstZero(v, w, n - 1);
      if i == n - 1 && !ZeroLane(v, w, i) {
        i := n;
      }
    }
  }

  /** test_zero tells exactly whether some lane is zero. */
  lemma {:induction false} TestZeroIff(v: seq<bool>, w: nat)
    requires |v| == BITS && IsWidth(w) && w > 0
    ensures TestZero(v, w) <==> !NoHits(true, v, w, Count(w))
  {
    CountOk(w);
    var i := FirstZero(v, w, Count(w));
    if i < Count(w) {
      ZeroTopsSome(v, w, Count(w), i);
      if NoHits(true, v, w, Count(w)) {
        NoHitsAt(true, v, w, i, Count(w));
      }
    } else {
      ZeroTopsNone(v, w, Count(w));
    }
  }

  // ---- The first lane that is zero, or the first that is not ----

  ghost predicate Hit(eq: bool, v: seq<bool>, w: nat, i: nat)
    requires Pos(w, i) + w <= |v|
  {
    eq <==> ZeroLane(v, w, i)
  }

  /** None of the first n lanes is a hit. */
  ghost predicate NoHits(eq: bool, v: seq<bool>, w: nat, n: nat) {
    n == 0 || (NoHits(eq, v, w, n - 1) && Pos(w, n - 1) + w <= |v| && !Hit(eq, v, w, n - 1))
  }

  lemma {:induction false} NoHitsLess(eq: bool, v: seq<bool>, w: nat, m: nat, n: nat)
    requires NoHits(eq, v, w, n) && m <= n
    ensures NoHits(eq, v, w, m)
    decreases n
  {
    if m < n {
      NoHitsLess(eq, v, w, m, n - 1);
    }
  }

  lemma {:induction false} NoHitsAt(eq: bool, v: seq<bool>, w: nat, i: nat, n: nat)
    requires NoHits(eq, v, w, n) && i < n
    ensures Pos(w, i) + w <= |v| && !Hit(eq, v, w, i)
    decreases n
  {
    if i < n - 1 {
      NoHitsAt(eq, v, w, i, n - 1);
    }
  }

  /** Bits k and up set. */
  function High(k: nat): (s: seq<bool>)
    ensures |s| == BITS
  {
    seq(BITS, b => b >= k)
  }

  function Low(k: nat): (s: seq<bool>)
    ensures |s| == BITS
  {
    seq(BITS, b => b < k)
  }

  /** With the bits above the first m lanes set, only those lanes can be zero. */
  lemma {:induction false} HighLane(v: seq<bool>, w: nat, m: nat, i: nat)
    requires |v| == BITS && w > 0 && Pos(w, i) + w <= BITS
    ensures i < m ==> Lane(Or(v, High(Pos(w, m))), w, i) == Lane(v, w, i)
    ensures i >= m ==> !ZeroLane(Or(v, High(Pos(w, m))), w, i)
  {
    var l := Lane(Or(v, High(Pos(w, m))), w, i);
    if i < m {
      PosMono(w, i, m);
    } else {
      PosMono(w, m, i);
      ZeroBits(l);
      assert l[0];
    }
  }

  lemma {:induction false} HighNone(v: seq<bool>, w: nat, m: nat, n: nat)
    requires |v| == BITS && w > 0 && Pos(w, n) <= BITS
    ensures NoHits(true, Or(v, High(Pos(w, m))), w, n) <==> NoHits(true, v, w, if n < m then n else m)
  {
    if n > 0 {
      HighNone(v, w, m, n - 1);
      HighLane(v, w, m, n - 1);
    }
  }

  lemma {:induction false} SkipZero(v: seq<bool>, w: nat, m: nat)
    requires |v| == BITS && IsWidth(w) && w > 0 && m <= Count(w)
    ensures !TestZero(Or(v, High(Pos(w, m))), w) <==> NoHits(true, v, w, m)
  {
    CountOk(w);
    TestZeroIff(Or(v, High(Pos(w, m))), w);
    HighNone(v, w, m, Count(w));
  }

  /** No bit below Pos(w, m) is set exactly if the first m lanes are zero. */
  lemma {:induction false} SkipNonzero(v: seq<bool>, w: nat, m: nat)
    requires |v| == BITS && w > 0 && Pos(w, m) <= BITS
    ensures !Nonzero(And(v, Low(Pos(w, m)))) <==> NoHits(false, v, w, m)
  {
    LowBits(v, w, m);
    var r := And(v, Low(Pos(w, m)));
    if NoHits(false, v, w, m) {
      forall b | 0 <= b < BITS ensures !r[b] {
      }
    } else {
      var b :| 0 <= b < Pos(w, m) && v[b];
      assert r[b];
    }
  }

  lemma {:induction false} LowBits(v: seq<bool>, w: nat, m: nat)
    requires Pos(w, m) <= |v|
    ensures NoHits(false, v, w, m) <==> forall b :: 0 <= b < Pos(w, m) ==> !v[b]
  {
    if m > 0 {
      LowBits(v, w, m - 1);
      var l := Lane(v, w, m - 1);
      ZeroBits(l);
      if forall b :: 0 <= b < Pos(w, m) ==> !v[b] {
        forall b | 0 <= b < w ensures !l[b] {
        }
      }
      if NoHits(false, v, w, m) {
        forall b | Pos(w, m - 1) <= b < Pos(w, m) ensures !v[b] {
          assert l[b - Pos(w, m - 1)] == v[b];
        }
      }
    }
  }

  /** The words of find_zero's bisection: nothing to find in the first m lanes. */
  predicate Skip(eq: bool, v: seq<bool>, w: nat, bits: nat)
    requires |v| == BITS && IsWidth(w) && w > 0
  {
    if eq then !TestZero(Or(v, High(bits)), w) else !Nonzero(And(v, Low(bits)))
  }

  lemma {:induction false} SkipOk(eq: bool, v: seq<bool>, w: nat, m: nat)
    requires |v| == BITS && IsWidth(w) && w > 0 && m <= Count(w)
    ensures Skip(eq, v, w, Pos(w, m)) <==> NoHits(eq, v, w, m)
  {
    CountOk(w);
    PosMono(w, m, Count(w));
    if eq {
      SkipZero(v, w, m);
    } else {
      SkipNonzero(v, w, m);
    }
  }

  /** Is lane i a hit? */
  predicate LaneHits(eq: bool, v: seq<bool>, w: nat, i: nat)
    requires Pos(w, i) + w <= |v|
  {
    eq == !Nonzero(Lane(v, w, i))
  }

  lemma {:induction false} LaneHitsOk(eq: bool, v: seq<bool>, w: nat, i: nat)
    requires Pos(w, i) + w <= |v|
    ensures LaneHits(eq, v, w, i) <==> Hit(eq, v, w, i)
  {
    ZeroBits(Lane(v, w, i));
  }

  /** Where the bisection starts to look. */
  function Bisect(eq: bool, v: seq<bool>, w: nat): (start: nat)
    requires |v| == BITS && IsWidth(w) && w > 0
  {
    var n := Count(w);
    if w > 8 then 0
    else if Skip(eq, v, w, 32) then (if w <= 4 && Skip(eq, v, w, 48) then n / 2 + n / 4 else n / 2)
    else if w <= 4 && Skip(eq, v, w, 16) then n / 4
    else 0
  }

  lemma {:induction false} BisectOk(eq: bool, v: seq<bool>, w: nat)
    requires |v| == BITS && IsWidth(w) && w > 0
    ensures Bisect(eq, v, w) <= Count(w) && NoHits(eq, v, w, Bisect(eq, v, w))
  {
    if w <= 8 {
      var n := Count(w);
      Quarters(w);
      SkipOk(eq, v, w, n / 2);
      if w <= 4 {
        SkipOk(eq, v, w, n / 2 + n / 4);
        SkipOk(eq, v, w, n / 4);
      }
    }
  }

  lemma {:induction false} Quarters(w: nat)
    requires IsWidth(w) && 0 < w <= 8
    ensures Pos(w, Count(w) / 2) == 32
    ensures w <= 4 ==> Pos(w, Count(w) / 4) == 16 && Pos(w, Count(w) / 2 + Count(w) / 4) == 48
  {
    CountIs(w);
    Widths(w);
    if w == 8 {
      PosIs(8, 4);
    } else if w == 4 {
      QuartersOf(4, 4);
    } else if w == 2 {
      QuartersOf(2, 8);
    } else {
      QuartersOf(1, 16);
    }
  }

  lemma QuartersOf(w: nat, q: nat)
    requires w * q == 16
    ensures Pos(w, q) == 16 && Pos(w, 2 * q) == 32 && Pos(w, 3 * q) == 48
  {
    PosIs(w, q);
    PosIs(w, 2 * q);
    PosIs(w, 3 * q);
  }

  method StartLane(eq: bool, v: seq<bool>, w: nat) returns (start: nat)
    requires |v| == BITS && IsWidth(w) && w > 0
    ensures start <= Count(w) && NoHits(eq, v, w, start)
  {
    BisectOk(eq, v, w);
    start := Bisect(eq, v, w);
  }

  /** find_zero: the first lane that is zero (eq) or not zero, given that there is one. */
  method FindZero(eq: bool, v: seq<bool>, w: nat, ghost hit: nat) returns (start: nat)
    requires |v| == BITS && IsWidth(w) && w > 0 && hit < Count(w) && Pos(w, hit) + w <= BITS && Hit(eq, v, w, hit)
    ensures start < Count(w) && Pos(w, start) + w <= BITS && Hit(eq, v, w, start) && NoHits(eq, v, w, start)
  {
    LaneIn(w, 0);
    LaneHitsOk(eq, v, w, 0);
    if LaneHits(eq, v, w, 0) {
      return 0;
    }
    start := StartLane(eq, v, w);
    AtLane(eq, v, w, start, hit);
    while !LaneHits(eq, v, w, start)
      invariant start <= hit && NoHits(eq, v, w, start) && Pos(w, start) + w <= BITS
      invariant LaneHits(eq, v, w, start) <==> Hit(eq, v, w, start)
      decreases hit - start
    {
      start := start + 1;
      AtLane(eq, v, w, start, hit);
    }
  }

  /** The search has not passed the lane that is known to be a hit. */
  lemma {:induction false} AtLane(eq: bool, v: seq<bool>, w: nat, start: nat, hit: nat)
    requires |v| == BITS && IsWidth(w) && w > 0 && hit < Count(w) && Pos(w, hit) + w <= BITS && Hit(eq, v, w, hit)
    requires NoHits(eq, v, w, start)
    ensures start <= hit && Pos(w, start) + w <= BITS && (LaneHits(eq, v, w, start) <==> Hit(eq, v, w, start))
  {
    FirstHitBound(eq, v, w, start, hit);
    LaneIn(w, start);
    LaneHitsOk(eq, v, w, start);
  }

  lemma {:induction false} FirstHitBound(eq: bool, v: seq<bool>, w: nat, n: nat, hit: nat)
    requires NoHits(eq, v, w, n) && Pos(w, hit) + w <= |v| && Hit(eq, v, w, hit)
    ensures n <= hit
  {
    if hit < n {
      NoHitsAt(eq, v, w, hit, n);
    }
  }

  // ---- Shifting lanes out at the bottom ----

  /** After a shift by a lanes, lane j is what lane a + j was, and zero lanes have come in at the top. */
  lemma {:induction false} ShrLane(v: seq<bool>, w: nat, a: nat, j: nat, n: nat)
    requires |v| == Pos(w, n) && j < n
    ensures Pos(w, j) + w <= |v|
    ensures a + j < n ==> Pos(w, a + j) + w <= |v| && Lane(Shr(v, Pos(w, a)), w, j) == Lane(v, w, a + j)
    ensures a + j >= n ==> ZeroLane(Shr(v, Pos(w, a)), w, j)
  {
    PosMono(w, j, n);
    PosAdd(w, j, a);
    var l := Lane(Shr(v, Pos(w, a)), w, j);
    if a + j < n {
      PosMono(w, a + j, n);
      forall b | 0 <= b < w ensures l[b] == Lane(v, w, a + j)[b] {
      }
    } else {
      PosMono(w, n, a + j);
      ZeroBits(l);
    }
  }

  lemma ShrTwice(v: seq<bool>, p: nat, q: nat)
    ensures Shr(Shr(v, p), q) == Shr(v, p + q)
  {
  }

  lemma ShrNone(v: seq<bool>)
    ensures Shr(v, 0) == v
  {
  }

  // ---- Greater than, all lanes at once ----

  /** No bit of the word is the top bit of a lane. */
  ghost predicate TopsClear(v: seq<bool>, w: nat, n: nat) {
    n == 0 || (TopsClear(v, w, n - 1) && w > 0 && Pos(w, n - 1) + w <= |v| && !v[Pos(w, n - 1) + w - 1])
  }

  lemma {:induction false} TopsClearAt(v: seq<bool>, w: nat, i: nat, n: nat)
    requires TopsClear(v, w, n) && i < n
    ensures w > 0 && Pos(w, i) + w <= |v| && !v[Pos(w, i) + w - 1] && FromBits(Lane(v, w, i)) < Pow2(w - 1)
    decreases n
  {
    if i < n - 1 {
      TopsClearAt(v, w, i, n - 1);
    } else {
      TopBit(Lane(v, w, i));
    }
  }

  lemma AndZero(a: seq<bool>, b: seq<bool>, at: nat)
    requires |a| == |b| && at < |a| && a[at] && !Nonzero(And(a, b))
    ensures !b[at]
  {
    assert !And(a, b)[at];
  }

  lemma {:induction false} RepeatClear(v: seq<bool>, w: nat, m: nat, n: nat)
    requires w > 0 && |v| == Pos(w, n) && m <= n && !Nonzero(And(Repeat(Top(w), n), v))
    ensures TopsClear(v, w, m)
  {
    if m > 0 {
      var k: nat := m - 1;
      RepeatClear(v, w, k, n);
      TopAt(w, n, k, w - 1);
      AndZero(Repeat(Top(w), n), v, Pos(w, k) + w - 1);
    }
  }

  lemma {:induction false} UpperClear(v: seq<bool>, w: nat)
    requires |v| == BITS && IsWidth(w) && w > 0 && !Nonzero(And(Upper(w), v))
    ensures TopsClear(v, w, Count(w))
  {
    CountOk(w);
    RepeatClear(v, w, Count(w), Count(w));
  }

  /** Adding the same small number to every lane carries nothing from lane to lane. */
  lemma {:induction false} NoCarry(v: seq<bool>, x: seq<bool>, n: nat, i: nat)
    requires x != [] && |v| == Pos(|x|, n) && i <= n && TopsClear(v, |x|, n) && FromBits(x) < Pow2(|x| - 1)
    ensures Pos(|x|, i) <= |v| && !Carry(v, Repeat(x, n), Pos(|x|, i))
  {
    PosMono(|x|, i, n);
    if i > 0 {
      var k: nat := i - 1;
      NoCarry(v, x, n, k);
      TopsClearAt(v, |x|, k, n);
      RepeatLane(x, n, k);
      CarryOut(v, Repeat(x, n), Pos(|x|, k), |x|);
    }
  }

  lemma {:induction false} CarryOut(a: seq<bool>, b: seq<bool>, p: nat, w: nat)
    requires |a| == |b| && w > 0 && p + w <= |a| && !Carry(a, b, p)
    requires FromBits(Slice(a, p, w)) < Pow2(w - 1) && FromBits(Slice(b, p, w)) < Pow2(w - 1)
    ensures !Carry(a, b, p + w)
    ensures FromBits(Slice(Add(a, b), p, w)) == FromBits(Slice(a, p, w)) + FromBits(Slice(b, p, w))
  {
    AddAt(a, b, p, w);
    FromBound(Slice(Add(a, b), p, w));
    assert Pow2(w) == 2 * Pow2(w - 1);
  }

  /** The top bit of lane i of the sum tells whether the lane is greater than the number behind x. */
  lemma {:induction false} SumTop(v: seq<bool>, x: seq<bool>, n: nat, i: nat)
    requires x != [] && |v| == Pos(|x|, n) && i < n && TopsClear(v, |x|, n) && FromBits(x) < Pow2(|x| - 1)
    ensures Pos(|x|, i) + |x| <= |v|
    ensures Add(v, Repeat(x, n))[Pos(|x|, i) + |x| - 1] <==> FromBits(Lane(v, |x|, i)) + FromBits(x) >= Pow2(|x| - 1)
  {
    NoCarry(v, x, n, i);
    TopsClearAt(v, |x|, i, n);
    RepeatLane(x, n, i);
    CarryOut(v, Repeat(x, n), Pos(|x|, i), |x|);
    TopBit(Lane(Add(v, Repeat(x, n)), |x|, i));
  }

  /** The magic number for n lanes: every lane holds the largest non-negative number less the value. */
  function Magic(w: nat, value: int, n: nat): (s: seq<bool>)
    requires w > 0
    ensures |s| == Pos(w, n)
  {
    Repeat(Encode(w, Pow2(w - 1) - 1 - value), n)
  }

  /** What find_gtlt_fast tests: the top bits of the lanes that are greater. */
  function GreaterWord(v: seq<bool>, magic: seq<bool>, w: nat, n: nat): (m: seq<bool>)
    requires w > 0 && |v| == Pos(w, n) == |magic|
    ensures |m| == |v|
  {
    And(Or(Add(v, magic), v), Repeat(Top(w), n))
  }

  lemma MaskedSum(sum: seq<bool>, v: seq<bool>, upper: seq<bool>, at: nat, big: bool, top: bool)
    requires |sum| == |v| == |upper| && at < |v| && upper[at] == top && (top ==> sum[at] == big && !v[at])
    ensures And(Or(sum, v), upper)[at] == (top && big)
  {
  }

  lemma {:induction false} GreaterTop(v: seq<bool>, w: nat, value: int, n: nat, i: nat)
    requires w > 0 && |v| == Pos(w, n) && i < n && TopsClear(v, w, n) && 0 <= value < Pow2(w - 1)
    ensures Pos(w, i) + w <= |v|
    ensures Add(v, Repeat(Encode(w, Pow2(w - 1) - 1 - value), n))[Pos(w, i) + w - 1] <==>
              FromBits(Lane(v, w, i)) > value
  {
    var x := Encode(w, Pow2(w - 1) - 1 - value);
    assert Pow2(w) == 2 * Pow2(w - 1);
    EncodeValue(w, Pow2(w - 1) - 1 - value);
    SumTop(v, x, n, i);
  }

  lemma {:induction false} GreaterAt(v: seq<bool>, w: nat, value: int, n: nat, i: nat, b: nat)
    requires |v| == Pos(w, n) && i < n && b < w && TopsClear(v, w, n) && 0 <= value < Pow2(w - 1)
    ensures Pos(w, i) + w <= |v|
    ensures GreaterWord(v, Magic(w, value, n), w, n)[Pos(w, i) + b] <==> b == w - 1 && FromBits(Lane(v, w, i)) > value
  {
    TopAt(w, n, i, b);
    TopsClearAt(v, w, i, n);
    GreaterTop(v, w, value, n, i);
    MaskedSum(Add(v, Magic(w, value, n)), v, Repeat(Top(w), n), Pos(w, i) + b, FromBits(Lane(v, w, i)) > value,
              b == w - 1);
  }
}
