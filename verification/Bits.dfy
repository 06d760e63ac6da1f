/**
 * Strings of bits, least significant first: the memory of a little-endian machine, its words, and what the
 * processor's operations on unsigned words do to them.
 */
module Bits {

  function Pow2(n: nat): (r: nat)
    ensures r > 0
  {
    if n == 0 then 1 else 2 * Pow2(n - 1)
  }

  function Bit(b: bool): nat {
    if b then 1 else 0
  }

  /** What bit number k adds to a number. */
  function Weight(k: nat, b: bool): nat {
    if b then Pow2(k) else 0
  }

  /** The number a string of bits stands for. */
  function FromBits(s: seq<bool>): nat {
    if s == [] then 0 else Bit(s[0]) + 2 * FromBits(s[1..])
  }

  lemma {:induction false} Pow2Add(m: nat, n: nat)
    ensures Pow2(m + n) == Pow2(m) * Pow2(n)
  {
    if m > 0 {
      Pow2Add(m - 1, n);
    }
  }

  lemma HalfOf(b: bool, n: nat)
    ensures (Bit(b) + 2 * n) / 2 == n && ((Bit(b) + 2 * n) % 2 == 1 <==> b)
  {
  }

  lemma {:induction false} FromBound(s: seq<bool>)
    ensures FromBits(s) < Pow2(|s|)
  {
    if s != [] {
      FromBound(s[1..]);
    }
  }

  lemma {:induction false} FromConcat(a: seq<bool>, b: seq<bool>)
    ensures FromBits(a + b) == FromBits(a) + Pow2(|a|) * FromBits(b)
  {
    if a == [] {
      assert a + b == b;
    } else {
      assert (a + b)[1..] == a[1..] + b;
      FromConcat(a[1..], b);
      Regroup(Bit(a[0]), FromBits(a[1..]), Pow2(|a| - 1), FromBits(b));
    }
  }

  lemma Regroup(x: nat, y: nat, p: nat, z: nat)
    ensures x + 2 * (y + p * z) == x + 2 * y + (2 * p) * z
  {
  }

  /** One bit more at the top. */
  lemma {:induction false} FromSnoc(s: seq<bool>, b: bool)
    ensures FromBits(s + [b]) == FromBits(s) + Weight(|s|, b)
  {
    FromConcat(s, [b]);
    assert [b][1..] == [];
    assert FromBits([b]) == Bit(b);
  }

  /** The top bit decides which half of the range a number is in. */
  lemma {:induction false} TopBit(s: seq<bool>)
    requires s != []
    ensures s[|s| - 1] <==> FromBits(s) >= Pow2(|s| - 1)
  {
    var n := |s| - 1;
    assert s == s[..n] + [s[n]];
    FromSnoc(s[..n], s[n]);
    FromBound(s[..n]);
  }

  lemma {:induction false} ZeroBits(s: seq<bool>)
    ensures FromBits(s) == 0 <==> forall i :: 0 <= i < |s| ==> !s[i]
  {
    if s != [] {
      ZeroBits(s[1..]);
      if FromBits(s) == 0 {
        forall i | 0 <= i < |s| ensures !s[i] {
          if i > 0 {
            assert s[i] == s[1..][i - 1];
          }
        }
      } else if FromBits(s[1..]) != 0 {
        var i :| 0 <= i < |s[1..]| && s[1..][i];
        assert s[i + 1];
      } else {
        assert s[0];
      }
    }
  }

  lemma {:induction false} FromEqual(a: seq<bool>, b: seq<bool>)
    requires |a| == |b| && FromBits(a) == FromBits(b)
    ensures a == b
  {
    if a != [] {
      HalfOf(a[0], FromBits(a[1..]));
      HalfOf(b[0], FromBits(b[1..]));
      FromEqual(a[1..], b[1..]);
      assert a == [a[0]] + a[1..] && b == [b[0]] + b[1..];
    }
  }

  // ---- Operations on words ----

  function And(a: seq<bool>, b: seq<bool>): (r: seq<bool>)
    requires |a| == |b|
  {
    seq(|a|, i requires 0 <= i < |a| && |a| == |b| => a[i] && b[i])
  }

  function Or(a: seq<bool>, b: seq<bool>): (r: seq<bool>)
    requires |a| == |b|
  {
    seq(|a|, i requires 0 <= i < |a| && |a| == |b| => a[i] || b[i])
  }

  function Xor(a: seq<bool>, b: seq<bool>): (r: seq<bool>)
    requires |a| == |b|
  {
    seq(|a|, i requires 0 <= i < |a| && |a| == |b| => a[i] != b[i])
  }

  function Not(a: seq<bool>): (r: seq<bool>) {
    seq(|a|, i requires 0 <= i < |a| => !a[i])
  }

  /** Shift towards the top; zeros come in at the bottom. */
  function Shl(a: seq<bool>, n: nat): (r: seq<bool>) {
    seq(|a|, i requires 0 <= i < |a| => i >= n && a[i - n])
  }

  /** Shift towards the bottom; zeros come in at the top. */
  function Shr(a: seq<bool>, n: nat): (r: seq<bool>) {
    seq(|a|, i requires 0 <= i < |a| => i + n < |a| && a[i + n])
  }

  /** The carry into bit i of a sum. */
  function Carry(a: seq<bool>, b: seq<bool>, i: nat): bool
    requires |a| == |b| && i <= |a|
  {
    i > 0 && ((a[i - 1] && b[i - 1]) || ((a[i - 1] || b[i - 1]) && Carry(a, b, i - 1)))
  }

  /** The borrow out of bits below i in a difference. */
  function Borrow(a: seq<bool>, b: seq<bool>, i: nat): bool
    requires |a| == |b| && i <= |a|
  {
    i > 0 && ((!a[i - 1] && b[i - 1]) || ((!a[i - 1] || b[i - 1]) && Borrow(a, b, i - 1)))
  }

  function Add(a: seq<bool>, b: seq<bool>): (r: seq<bool>)
    requires |a| == |b|
  {
    seq(|a|, i requires 0 <= i < |a| && |a| == |b| => (a[i] != b[i]) != Carry(a, b, i))
  }

  function Sub(a: seq<bool>, b: seq<bool>): (r: seq<bool>)
    requires |a| == |b|
  {
    seq(|a|, i requires 0 <= i < |a| && |a| == |b| => (a[i] != b[i]) != Borrow(a, b, i))
  }

  /** A sum, seen at bits i..i+k: the numbers there, the carry that comes in and the carry that goes out. */
  lemma {:induction false} AddAt(a: seq<bool>, b: seq<bool>, i: nat, k: nat)
    requires |a| == |b| && i + k <= |a|
    ensures FromBits(Add(a, b)[i..i + k]) + Weight(k, Carry(a, b, i + k))
         == FromBits(a[i..i + k]) + FromBits(b[i..i + k]) + Bit(Carry(a, b, i))
  {
    if k > 0 {
      var j, s := i + k - 1, Add(a, b);
      AddAt(a, b, i, k - 1);
      SnocAt(a, i, k);
      SnocAt(b, i, k);
      SnocAt(s, i, k);
      FullAdder(k - 1, a[j], b[j], Carry(a, b, j), Carry(a, b, j + 1), s[j]);
    }
  }

  lemma FullAdder(k: nat, x: bool, y: bool, c: bool, c': bool, s: bool)
    requires s == ((x != y) != c) && c' == ((x && y) || ((x || y) && c))
    ensures Weight(k, s) + Weight(k + 1, c') == Weight(k, x) + Weight(k, y) + Weight(k, c)
  {
  }

  lemma {:induction false} SnocAt(a: seq<bool>, i: nat, k: nat)
    requires k > 0 && i + k <= |a|
    ensures FromBits(a[i..i + k]) == FromBits(a[i..i + (k - 1)]) + Weight(k - 1, a[i + k - 1])
  {
    assert a[i..i + k] == a[i..i + k - 1] + [a[i + k - 1]];
    FromSnoc(a[i..i + k - 1], a[i + k - 1]);
  }

  /** The same for a difference. */
  lemma {:induction false} SubAt(a: seq<bool>, b: seq<bool>, i: nat, k: nat)
    requires |a| == |b| && i + k <= |a|
    ensures FromBits(Sub(a, b)[i..i + k]) + FromBits(b[i..i + k]) + Bit(Borrow(a, b, i))
         == FromBits(a[i..i + k]) + Weight(k, Borrow(a, b, i + k))
  {
    if k > 0 {
      var j, d := i + k - 1, Sub(a, b);
      SubAt(a, b, i, k - 1);
      SnocAt(a, i, k);
      SnocAt(b, i, k);
      SnocAt(d, i, k);
      FullSubtracter(k - 1, a[j], b[j], Borrow(a, b, j), Borrow(a, b, j + 1), d[j]);
    }
  }

  lemma FullSubtracter(k: nat, x: bool, y: bool, c: bool, c': bool, d: bool)
    requires d == ((x != y) != c) && c' == ((!x && y) || ((!x || y) && c))
    ensures Weight(k, d) + Weight(k, y) + Weight(k, c) == Weight(k, x) + Weight(k + 1, c')
  {
  }

  /** On whole words the two are addition and subtraction modulo a power of two. */
  lemma {:induction false} AddValue(a: seq<bool>, b: seq<bool>)
    requires |a| == |b|
    ensures |Add(a, b)| == |a| && FromBits(Add(a, b)) == (FromBits(a) + FromBits(b)) % Pow2(|a|)
  {
    AddAt(a, b, 0, |a|);
    assert Add(a, b)[0..|a|] == Add(a, b) && a[0..|a|] == a && b[0..|a|] == b;
    FromBound(Add(a, b));
    ModOnce(FromBits(Add(a, b)), FromBits(a) + FromBits(b), Pow2(|a|), if Carry(a, b, |a|) then 1 else 0);
  }

  lemma {:induction false} SubValue(a: seq<bool>, b: seq<bool>)
    requires |a| == |b|
    ensures |Sub(a, b)| == |a| && FromBits(Sub(a, b)) == (FromBits(a) - FromBits(b)) % Pow2(|a|)
  {
    SubAt(a, b, 0, |a|);
    assert Sub(a, b)[0..|a|] == Sub(a, b) && a[0..|a|] == a && b[0..|a|] == b;
    FromBound(Sub(a, b));
    ModOnce(FromBits(Sub(a, b)), FromBits(a) - FromBits(b), Pow2(|a|), if Borrow(a, b, |a|) then -1 else 0);
  }

  lemma ModOnce(r: nat, x: int, m: nat, c: int)
    requires r < m && x == r + m * c && -1 <= c <= 1
    ensures x % m == r
  {
    assert m * 1 == m && m * -1 == -(m as int) && m * 0 == 0;
  }
}
