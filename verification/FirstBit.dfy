/** The lowest bit of a word that is set, found by a multiplication and a table (first_set_bit and first_set_bit64). */
module FirstBit {
  import opened Bits
  import opened Lanes

  const FACTOR: nat := 0x077C_B531

  /** The table. */
  function Position(i: nat): nat {
    match i
    case 0 => 0 case 1 => 1 case 2 => 28 case 3 => 2
    case 4 => 29 case 5 => 14 case 6 => 24 case 7 => 3
    case 8 => 30 case 9 => 22 case 10 => 20 case 11 => 15
    case 12 => 25 case 13 => 17 case 14 => 4 case 15 => 8
    case 16 => 31 case 17 => 27 case 18 => 13 case 19 => 23
    case 20 => 21 case 21 => 19 case 22 => 16 case 23 => 7
    case 24 => 26 case 25 => 12 case 26 => 18 case 27 => 6
    case 28 => 11 case 29 => 5 case 30 => 10 case _ => 9
  }

  /** The top five bits of the product, in 32-bit arithmetic. */
  function Index(x: nat): (i: nat)
    ensures i < 32
  {
    x * FACTOR % 0x1_0000_0000 / 0x800_0000
  }

  ghost predicate IsFirst(v: seq<bool>, k: nat) {
    k < |v| && v[k] && forall b :: 0 <= b < k ==> !v[b]
  }

  lemma {:induction false} FirstOfNonzero(v: seq<bool>) returns (k: nat)
    requires Nonzero(v)
    ensures IsFirst(v, k)
  {
    if v[0] {
      k := 0;
    } else {
      var i :| 0 <= i < |v| && v[i];
      assert v[1..][i - 1];
      var j := FirstOfNonzero(v[1..]);
      k := j + 1;
      forall b | 0 <= b < k ensures !v[b] {
        assert b > 0 ==> v[b] == v[1..][b - 1];
      }
    }
  }

  function ZeroWord(n: nat): (s: seq<bool>)
    ensures |s| == n
  {
    seq(n, i => false)
  }

  /** A number and its negative. */
  function Isolated(v: seq<bool>): (r: seq<bool>)
    ensures |r| == |v|
  {
    And(v, Sub(ZeroWord(|v|), v))
  }

  /** Subtracting from zero borrows from the first bit on that is set. */
  lemma {:induction false} BorrowFrom(v: seq<bool>, k: nat, p: nat)
    requires IsFirst(v, k) && p <= |v|
    ensures Borrow(ZeroWord(|v|), v, p) <==> p > k
  {
    if p > 0 {
      BorrowFrom(v, k, p - 1);
    }
  }

  /** The two have exactly the lowest bit in common. */
  lemma {:induction false} IsolatedAt(v: seq<bool>, k: nat, p: nat)
    requires IsFirst(v, k) && p < |v|
    ensures Isolated(v)[p] <==> p == k
  {
    BorrowFrom(v, k, p);
  }

  lemma {:induction false} OneBit(s: seq<bool>, k: nat)
    requires k < |s| && forall p :: 0 <= p < |s| ==> (s[p] <==> p == k)
    ensures FromBits(s) == Pow2(k)
  {
    if k == 0 {
      ZeroBits(s[1..]);
    } else {
      OneBit(s[1..], k - 1);
    }
  }

  lemma {:induction false} IsolatedIs(v: seq<bool>, k: nat)
    requires IsFirst(v, k)
    ensures FromBits(Isolated(v)) == Pow2(k)
  {
    forall p | 0 <= p < |v| ensures Isolated(v)[p] <==> p == k {
      IsolatedAt(v, k, p);
    }
    OneBit(Isolated(v), k);
  }

  lemma IndexIs(x: nat, q: nat, i: nat, rest: nat)
    requires x * FACTOR == q * 0x1_0000_0000 + i * 0x800_0000 + rest && i < 32 && rest < 0x800_0000
    ensures Index(x) == i
  {
    LowWord(q, i * 0x800_0000 + rest);
    TopBits(i, rest);
  }

  lemma LowWord(q: nat, r: nat)
    requires r < 0x1_0000_0000
    ensures (q * 0x1_0000_0000 + r) % 0x1_0000_0000 == r
  {
  }

  lemma TopBits(i: nat, rest: nat)
    requires rest < 0x800_0000
    ensures (i * 0x800_0000 + rest) / 0x800_0000 == i
  {
  }

  lemma Powers0()
    ensures Pow2(0) == 1 && Pow2(1) == 2 && Pow2(2) == 4 && Pow2(3) == 8
    ensures Pow2(4) == 16 && Pow2(5) == 32 && Pow2(6) == 64 && Pow2(7) == 128
  {
  }

  lemma Powers1()
    ensures Pow2(8) == 256 && Pow2(9) == 512 && Pow2(10) == 1024 && Pow2(11) == 2048
    ensures Pow2(12) == 4096 && Pow2(13) == 8192 && Pow2(14) == 16384 && Pow2(15) == 32768
  {
    Powers0();
  }

  lemma Powers2()
    ensures Pow2(16) == 65536 && Pow2(17) == 131072 && Pow2(18) == 262144 && Pow2(19) == 524288
    ensures Pow2(20) == 1048576 && Pow2(21) == 2097152 && Pow2(22) == 4194304 && Pow2(23) == 8388608
  {
    Powers1();
  }

  lemma Powers3()
    ensures Pow2(24) == 16777216 && Pow2(25) == 33554432 && Pow2(26) == 67108864 && Pow2(27) == 134217728
    ensures Pow2(28) == 268435456 && Pow2(29) == 536870912 && Pow2(30) == 1073741824 && Pow2(31) == 2147483648
  {
    Powers2();
  }

  lemma Row0(k: nat)
    requires 0 <= k < 8
    ensures Position(Index(Pow2(k))) == k
  {
    Powers0();
    match k
    case 0 => IndexIs(1, 0, 0, 125613361);
    case 1 => IndexIs(2, 0, 1, 117008994);
    case 2 => IndexIs(4, 0, 3, 99800260);
    case 3 => IndexIs(8, 0, 7, 65382792);
    case 4 => IndexIs(16, 0, 14, 130765584);
    case 5 => IndexIs(32, 0, 29, 127313440);
    case 6 => IndexIs(64, 1, 27, 120409152);
    case 7 => IndexIs(128, 3, 23, 106600576);
  }

  lemma Row1(k: nat)
    requires 8 <= k < 16
    ensures Position(Index(Pow2(k))) == k
  {
    Powers1();
    match k
    case 8 => IndexIs(256, 7, 15, 78983424);
    case 9 => IndexIs(512, 14, 31, 23749120);
    case 10 => IndexIs(1024, 29, 30, 47498240);
    case 11 => IndexIs(2048, 59, 28, 94996480);
    case 12 => IndexIs(4096, 119, 25, 55775232);
    case 13 => IndexIs(8192, 239, 18, 111550464);
    case 14 => IndexIs(16384, 479, 5, 88883200);
    case 15 => IndexIs(32768, 958, 11, 43548672);
  }

  lemma Row2(k: nat)
    requires 16 <= k < 24
    ensures Position(Index(Pow2(k))) == k
  {
    Powers2();
    match k
    case 16 => IndexIs(65536, 1916, 22, 87097344);
    case 17 => IndexIs(131072, 3833, 13, 39976960);
    case 18 => IndexIs(262144, 7666, 26, 79953920);
    case 19 => IndexIs(524288, 15333, 21, 25690112);
    case 20 => IndexIs(1048576, 30667, 10, 51380224);
    case 21 => IndexIs(2097152, 61334, 20, 102760448);
    case 22 => IndexIs(4194304, 122669, 9, 71303168);
    case 23 => IndexIs(8388608, 245338, 19, 8388608);
  }

  lemma Row3(k: nat)
    requires 24 <= k < 32
    ensures Position(Index(Pow2(k))) == k
  {
    Powers3();
    match k
    case 24 => IndexIs(16777216, 490677, 6, 16777216);
    case 25 => IndexIs(33554432, 981354, 12, 33554432);
    case 26 => IndexIs(67108864, 1962708, 24, 67108864);
    case 27 => IndexIs(134217728, 3925417, 17, 0);
    case 28 => IndexIs(268435456, 7850835, 2, 0);
    case 29 => IndexIs(536870912, 15701670, 4, 0);
    case 30 => IndexIs(1073741824, 31403340, 8, 0);
    case 31 => IndexIs(2147483648, 62806680, 16, 0);
  }

  /** The table inverts the multiplication for all 32 positions. */
  lemma PositionOf(k: nat)
    requires k < 32
    ensures Position(Index(Pow2(k))) == k
  {
    if k < 8 {
      Row0(k);
    } else if k < 16 {
      Row1(k);
    } else if k < 24 {
      Row2(k);
    } else {
      Row3(k);
    }
  }

  /** first_set_bit; the smallest negative number is treated apart. */
  method FirstSetBit32(v: seq<bool>) returns (k: nat)
    requires |v| == 32 && Nonzero(v)
    ensures IsFirst(v, k)
  {
    ghost var first := FirstOfNonzero(v);
    if v[31] && !Nonzero(v[..31]) {
      assert forall b :: 0 <= b < 31 ==> !v[..31][b];
      return 31;
    }
    IsolatedIs(v, first);
    PositionOf(first);
    k := Position(Index(FromBits(Isolated(v))));
  }

  /** first_set_bit64: the lower half, or else the upper one. */
  method FirstSetBit(m: seq<bool>) returns (k: nat)
    requires |m| == 64 && Nonzero(m)
    ensures IsFirst(m, k)
  {
    if Nonzero(m[..32]) {
      k := FirstSetBit32(m[..32]);
      assert forall b :: 0 <= b < k ==> m[b] == m[..32][b];
    } else {
      UpperHalf(m);
      var j := FirstSetBit32(m[32..]);
      k := j + 32;
      forall b | 32 <= b < k ensures !m[b] {
        assert m[b] == m[32..][b - 32];
      }
    }
  }

  lemma UpperHalf(m: seq<bool>)
    requires |m| == 64 && Nonzero(m) && !Nonzero(m[..32])
    ensures Nonzero(m[32..]) && forall b :: 0 <= b < 32 ==> !m[b]
  {
    forall b | 0 <= b < 32 ensures !m[b] {
      assert m[b] == m[..32][b];
    }
    var i :| 0 <= i < |m| && m[i];
    assert m[32..][i - 32];
  }
}
