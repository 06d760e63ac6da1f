/** The search for a null value that is not in use: its candidates repeat only after all 2^64 of them. */
module NullSearch {

  const WORD: nat := 0x1_0000_0000_0000_0000
  const HALF: nat := 0x8000_0000_0000_0000

  /** The prime by which candidates advance, and its inverse modulo 2^64. */
  const STEP: nat := 0xffff_fffb
  const INVERSE: nat := 0x70a3_d70a_3333_3333

  /** Conversion to int64_t. */
  function Wrap(x: int): (r: int)
    ensures -(HALF as int) <= r < HALF
  {
    (x + HALF) % WORD - HALF
  }

  function NextCandidate(previous: int): int {
    Wrap(previous + STEP)
  }

  /** The k-th candidate after a seed. */
  function Candidate(seed: int, k: nat): int {
    if k == 0 then seed else NextCandidate(Candidate(seed, k - 1))
  }

  lemma {:induction false} CandidateIs(seed: int, k: nat) returns (q: int)
    ensures Candidate(seed, k) == seed + k * STEP + WORD * q
  {
    if k == 0 {
      q := 0;
    } else {
      q := CandidateIs(seed, k - 1);
      var x := Candidate(seed, k - 1) + STEP;
      q := q - (x + HALF) / WORD;
    }
  }

  /** Candidates after a seed that is not negative go straight up until they leave the range. */
  lemma {:induction false} CandidateStraight(seed: int, k: nat)
    requires 0 <= seed && seed + k * STEP < HALF
    ensures Candidate(seed, k) == seed + k * STEP
  {
    if k > 0 {
      CandidateStraight(seed, k - 1);
    }
  }

  /** Every number is the first candidate after some seed. */
  lemma FirstCandidate(c: int)
    requires -(HALF as int) <= c < HALF
    ensures -(HALF as int) <= Wrap(c - STEP) < HALF && Candidate(Wrap(c - STEP), 1) == c
  {
    assert Candidate(Wrap(c - STEP), 0) == Wrap(c - STEP);
  }

  /** Since STEP has an inverse, no two of the first 2^64 candidates are equal. */
  lemma {:induction false} CandidatesDiffer(seed: int, i: nat, j: nat)
    requires i < j < WORD
    ensures Candidate(seed, i) != Candidate(seed, j)
  {
    var p := CandidateIs(seed, i);
    var q := CandidateIs(seed, j);
    if Candidate(seed, i) == Candidate(seed, j) {
      var d := j - i;
      assert d * STEP == WORD * (p - q);
      assert STEP * INVERSE == 1 + WORD * 1889785608;
      calc {
        d;
        d * (STEP * INVERSE) - d * (WORD * 1889785608);
        (d * STEP) * INVERSE - WORD * (d * 1889785608);
        WORD * ((p - q) * INVERSE - d * 1889785608);
      }
      Multiple(d, (p - q) * INVERSE - d * 1889785608);
    }
  }

  lemma Multiple(d: nat, m: int)
    requires 0 < d < WORD
    ensures d != WORD * m
  {
  }

  // ---- Counting ----

  ghost function FirstCandidates(seed: int, k: nat): set<int> {
    if k == 0 then {} else FirstCandidates(seed, k - 1) + {Candidate(seed, k)}
  }

  lemma {:induction false} NotAmong(seed: int, k: nat, j: nat)
    requires k < j < WORD
    ensures Candidate(seed, j) !in FirstCandidates(seed, k)
  {
    if k > 0 {
      NotAmong(seed, k - 1, j);
      CandidatesDiffer(seed, k, j);
    }
  }

  lemma {:induction false} CandidateCount(seed: int, k: nat)
    requires k < WORD
    ensures |FirstCandidates(seed, k)| == k
  {
    if k > 0 {
      CandidateCount(seed, k - 1);
      NotAmong(seed, k - 1, k);
    }
  }

  ghost function Elems(s: seq<int>): set<int> {
    if s == [] then {} else Elems(s[..|s| - 1]) + {s[|s| - 1]}
  }

  lemma {:induction false} ElemsOk(s: seq<int>, x: int)
    ensures x in Elems(s) <==> x in s
    ensures |Elems(s)| <= |s|
  {
    if s != [] {
      ElemsOk(s[..|s| - 1], x);
      assert s == s[..|s| - 1] + [s[|s| - 1]];
    }
  }

  lemma {:induction false} SubsetSize(a: set<int>, b: set<int>)
    requires a <= b
    ensures |a| <= |b|
  {
    assert b == a + (b - a);
  }

  /** Candidates that have all been refused are among the incoming value and the stored ones, so they are few. */
  lemma {:induction false} FewRefused(seed: int, k: nat, incoming: int, stored: seq<int>)
    requires k < WORD && FirstCandidates(seed, k) <= {incoming} + Elems(stored)
    ensures k <= |stored| + 1
  {
    CandidateCount(seed, k);
    SubsetSize(FirstCandidates(seed, k), {incoming} + Elems(stored));
    ElemsOk(stored, incoming);
  }

  function Numbers(n: nat): set<int> {
    if n == 0 then {} else Numbers(n - 1) + {n - 1}
  }

  lemma {:induction false} NumbersOk(n: nat)
    ensures |Numbers(n)| == n && forall x :: x in Numbers(n) <==> 0 <= x < n
  {
    if n > 0 {
      NumbersOk(n - 1);
    }
  }

  /** A list misses one of the numbers up to its length. */
  lemma {:induction false} SmallUnused(s: seq<int>) returns (c: nat)
    ensures c <= |s| && c !in s
  {
    NumbersOk(|s| + 1);
    ElemsOk(s, 0);
    if forall x :: x in Numbers(|s| + 1) ==> x in Elems(s) {
      SubsetSize(Numbers(|s| + 1), Elems(s));
    }
    var x :| x in Numbers(|s| + 1) && x !in Elems(s);
    ElemsOk(s, x);
    c := x;
  }
}
