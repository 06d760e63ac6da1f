/** Search in a packed array, word by word, against a scan of its elements. */
module ArrayFind {
  import opened Options
  import opened Bits
  import opened BitMemory
  import opened Lanes
  import opened FirstBit
  import opened Query

  // ---- Lanes and elements ----

  /** The first n lanes of a word are hits exactly where the elements from `first` on satisfy the condition. */
  ghost predicate Agree(eq: bool, v: seq<bool>, w: nat, elems: seq<int>, first: nat, c: Cond, value: int, n: nat) {
    n == 0 || (
      && Agree(eq, v, w, elems, first, c, value, n - 1) && Pos(w, n - 1) + w <= |v| && first + n <= |elems|
      && (Hit(eq, v, w, n - 1) <==> Sat(c, elems[first + n - 1], value)))
  }

  lemma {:induction false} AgreeAt(eq: bool, v: seq<bool>, w: nat, elems: seq<int>, first: nat, c: Cond, value: int,
                                   n: nat, i: nat)
    requires Agree(eq, v, w, elems, first, c, value, n) && i < n
    ensures Pos(w, i) + w <= |v| && first + i < |elems|
    ensures Hit(eq, v, w, i) <==> Sat(c, elems[first + i], value)
    decreases n
  {
    if i < n - 1 {
      AgreeAt(eq, v, w, elems, first, c, value, n - 1, i);
    }
  }

  /** None of the lanes from..end is a hit. */
  ghost predicate NoneIn(eq: bool, v: seq<bool>, w: nat, from: nat, end: nat) {
    end <= from || (NoneIn(eq, v, w, from, end - 1) && Pos(w, end - 1) + w <= |v| && !Hit(eq, v, w, end - 1))
  }

  /** Lanes of the word shifted down by a lanes, seen in the word itself. */
  lemma {:induction false} ShiftedNone(eq: bool, v: seq<bool>, w: nat, n: nat, a: nat, t: nat)
    requires |v| == Pos(w, n) && a + t <= n && NoHits(eq, Shr(v, Pos(w, a)), w, t)
    ensures NoneIn(eq, v, w, a, a + t)
  {
    if t > 0 {
      ShiftedNone(eq, v, w, n, a, t - 1);
      ShrLane(v, w, a, t - 1, n);
    }
  }

  lemma {:induction false} ShiftedHit(eq: bool, v: seq<bool>, w: nat, n: nat, a: nat, t: nat)
    requires |v| == Pos(w, n) && a + t < n && Pos(w, t) + w <= |v| && Hit(eq, Shr(v, Pos(w, a)), w, t)
    ensures Pos(w, a + t) + w <= |v| && Hit(eq, v, w, a + t)
  {
    ShrLane(v, w, a, t, n);
  }

  /** Lanes without a hit are elements that do not match. */
  lemma {:induction false} NoMatches(eq: bool, v: seq<bool>, w: nat, elems: seq<int>, first: nat, c: Cond, value: int,
                                     n: nat, from: nat, end: nat)
    requires first + n <= |elems| && Agree(eq, v, w, elems, first, c, value, n) && from <= end <= n
    requires NoneIn(eq, v, w, from, end)
    ensures Hits(elems, c, value, first + from, first + end) == []
    decreases end
  {
    if from < end {
      var k: nat := end - 1;
      NoMatches(eq, v, w, elems, first, c, value, n, from, k);
      AgreeAt(eq, v, w, elems, first, c, value, n, k);
      assert !Sat(c, elems[first + k], value);
    }
  }

  lemma {:induction false} FirstHit(eq: bool, v: seq<bool>, w: nat, n: nat) returns (i: nat)
    requires Pos(w, n) <= |v| && !NoHits(eq, v, w, n)
    ensures i < n && Pos(w, i) + w <= |v| && Hit(eq, v, w, i)
  {
    if !NoHits(eq, v, w, n - 1) {
      i := FirstHit(eq, v, w, n - 1);
    } else {
      i := n - 1;
    }
  }

  /** The loop condition of compare_equality. */
  predicate Any(eq: bool, v: seq<bool>, w: nat)
    requires |v| == BITS && IsWidth(w) && w > 0
  {
    if eq then TestZero(v, w) else Nonzero(v)
  }

  lemma {:induction false} AnyIff(eq: bool, v: seq<bool>, w: nat)
    requires |v| == BITS && IsWidth(w) && w > 0
    ensures Any(eq, v, w) <==> !NoHits(eq, v, w, Count(w))
  {
    CountOk(w);
    if eq {
      TestZeroIff(v, w);
    } else {
      LowBits(v, w, Count(w));
    }
  }

  function Zeros(): (s: seq<bool>)
    ensures |s| == BITS
  {
    seq(BITS, i => false)
  }

  lemma ShrAll(v: seq<bool>, p: nat, q: nat)
    requires |v| == BITS && q >= BITS
    ensures Shr(v, p + q) == Zeros()
  {
  }

  /** Drop t + 1 lanes. */
  function Drop(v: seq<bool>, w: nat, t: nat): (r: seq<bool>)
    requires |v| == BITS
    ensures |r| == BITS
  {
    if (t + 1) * w < BITS then Shr(v, (t + 1) * w) else Zeros()
  }

  lemma {:induction false} DropOk(v: seq<bool>, w: nat, a: nat, k: nat)
    requires |v| == BITS && a <= k
    ensures Drop(Shr(v, Pos(w, a)), w, k - a) == Shr(v, Pos(w, k + 1))
  {
    var t: nat := k - a + 1;
    PosIs(w, t);
    PosAdd(w, a, t);
    ShrTwice(v, Pos(w, a), Pos(w, t));
    if t * w >= BITS {
      ShrAll(v, Pos(w, a), Pos(w, t));
    }
  }

  /** A hit at lane k, after lanes a..k without one. */
  lemma {:induction false} HitAfter(eq: bool, v: seq<bool>, w: nat, elems: seq<int>, first: nat, c: Cond, value: int,
                                    n: nat, a: nat, k: nat)
    requires first + n <= |elems| && Agree(eq, v, w, elems, first, c, value, n) && a <= k < n
    requires Pos(w, k) + w <= |v| && Hit(eq, v, w, k) && NoneIn(eq, v, w, a, k)
    ensures Hits(elems, c, value, first + a, first + k + 1) == [first + k]
  {
    NoMatches(eq, v, w, elems, first, c, value, n, a, k);
    AgreeAt(eq, v, w, elems, first, c, value, n, k);
  }

  /** Stopping early: what follows is not reported. */
  lemma {:induction false} Stopped(elems: seq<int>, c: Cond, value: int, from: nat, mid: nat, end: nat, base: int,
                                   seen: seq<int>, go: seq<int> -> bool, seen': seq<int>)
    requires from <= mid <= end <= |elems| && Reported(Hits(elems, c, value, from, mid), base, seen, go, seen', false)
    ensures Reported(Hits(elems, c, value, from, end), base, seen, go, seen', false)
  {
    HitsSplit(elems, c, value, from, mid, end);
    ReportNoMore(Hits(elems, c, value, from, mid), Hits(elems, c, value, mid, end), base, seen, go, seen');
  }

  /** Going on: the two parts are reported one after the other. */
  lemma {:induction false} Continued(elems: seq<int>, c: Cond, value: int, from: nat, mid: nat, end: nat, base: int,
                                     seen: seq<int>, go: seq<int> -> bool, seen': seq<int>, seen'': seq<int>, r: bool)
    requires from <= mid <= end <= |elems| && Reported(Hits(elems, c, value, from, mid), base, seen, go, seen', true)
    requires Reported(Hits(elems, c, value, mid, end), base, seen', go, seen'', r)
    ensures Reported(Hits(elems, c, value, from, end), base, seen, go, seen'', r)
  {
    HitsSplit(elems, c, value, from, mid, end);
    ReportMore(Hits(elems, c, value, from, mid), Hits(elems, c, value, mid, end), base, seen, go, seen', seen'', r);
  }

  /**
   * Report the first of `rest`, the hits that are still to be reported after those in `done`. A value handed over with
   * it is the element.
   */
  method ReportHit(i: nat, v: Option<int>, base: int, state: QueryState, ghost elems: seq<int>, ghost done: seq<int>,
                   ghost rest: seq<int>, ghost seen: seq<int>)
    returns (r: bool)
    requires i < |elems| && (v.Some? ==> v.value == elems[i])
    requires rest != [] && rest[0] == i && Reported(done, base, seen, state.go, state.seen, true)
    modifies state
    ensures r ==> Reported(done + [i], base, seen, state.go, state.seen, true)
    ensures !r ==> Reported(done + rest, base, seen, state.go, state.seen, false)
  {
    ReportOne(done, i, base, seen, state.go, state.seen);
    r := state.Match(i + base, v, elems[i]);
    if !r {
      ReportNoMore(done + [i], rest[1..], base, seen, state.go, state.seen);
      assert done + rest == done + [i] + rest[1..];
    }
  }

  lemma {:induction false} NoMoreLanes(eq: bool, v: seq<bool>, v2: seq<bool>, w: nat, elems: seq<int>, first: nat,
                                       c: Cond, value: int, n: nat, a: nat, m: nat)
    requires |v| == Pos(w, n) && first + n <= |elems| && Agree(eq, v, w, elems, first, c, value, n) && a <= n <= a + m
    requires Dropped(v, v2, w, a) && NoHits(eq, v2, w, m)
    ensures Hits(elems, c, value, first + a, first + n) == []
  {
    NoHitsLess(eq, Shr(v, Pos(w, a)), w, n - a, m);
    ShiftedNone(eq, v, w, n, a, n - a);
    NoMatches(eq, v, w, elems, first, c, value, n, a, n);
  }

  lemma {:induction false} LanesAbove(eq: bool, v: seq<bool>, w: nat, n: nat, a: nat, k: nat)
    requires |v| == Pos(w, n) && a <= k < n && Pos(w, k - a) + w <= |v|
    requires Hit(eq, Shr(v, Pos(w, a)), w, k - a) && NoHits(eq, Shr(v, Pos(w, a)), w, k - a)
    ensures Pos(w, k) + w <= |v| && Hit(eq, v, w, k) && NoneIn(eq, v, w, a, k)
  {
    var t: nat := k - a;
    ShiftedNone(eq, v, w, n, a, t);
    ShiftedHit(eq, v, w, n, a, t);
    assert a + t == k;
  }

  /** The lane find_zero gives is the next element that matches. */
  lemma {:induction false} NextLane(eq: bool, v: seq<bool>, v2: seq<bool>, w: nat, elems: seq<int>, first: nat, c: Cond,
                                    value: int, n: nat, a: nat, k: nat)
    requires |v| == Pos(w, n) && first + n <= |elems| && Agree(eq, v, w, elems, first, c, value, n) && a <= k < n
    requires Dropped(v, v2, w, a) && Pos(w, k - a) + w <= |v| && Hit(eq, v2, w, k - a) && NoHits(eq, v2, w, k - a)
    ensures Hits(elems, c, value, first + a, first + n) == [first + k] + Hits(elems, c, value, first + k + 1, first + n)
  {
    LanesAbove(eq, v, w, n, a, k);
    HitAfter(eq, v, w, elems, first, c, value, n, a, k);
    FirstThenRest(elems, c, value, first + a, first + k, first + n);
  }

  lemma {:induction false} FirstThenRest(elems: seq<int>, c: Cond, value: int, from: nat, k: nat, end: nat)
    requires from <= k < end <= |elems| && Hits(elems, c, value, from, k + 1) == [k]
    ensures Hits(elems, c, value, from, end) == [k] + Hits(elems, c, value, k + 1, end)
  {
    HitsSplit(elems, c, value, from, k + 1, end);
  }

  /** v2 is v without its first a lanes. */
  ghost predicate Dropped(v: seq<bool>, v2: seq<bool>, w: nat, a: nat) {
    |v2| == |v| && v2 == Shr(v, Pos(w, a))
  }

  method DropLanes(v: seq<bool>, v2: seq<bool>, w: nat, a: nat, k: nat) returns (r: seq<bool>)
    requires |v| == BITS && a <= k && Dropped(v, v2, w, a)
    ensures Dropped(v, r, w, k + 1)
  {
    DropOk(v, w, a, k);
    r := Drop(v2, w, k - a);
  }

  /** k / w, by subtraction. */
  function Quot(k: nat, w: nat): nat
    requires w > 0
  {
    if k < w then 0 else 1 + Quot(k - w, w)
  }

  lemma {:induction false} QuotPos(k: nat, w: nat)
    requires w > 0
    ensures Pos(w, Quot(k, w)) <= k < Pos(w, Quot(k, w)) + w
  {
    if k >= w {
      QuotPos(k - w, w);
    }
  }

  lemma {:induction false} QuotIs(k: nat, w: nat)
    requires w > 0
    ensures Quot(k, w) == k / w
  {
    QuotPos(k, w);
    var q := Quot(k, w);
    PosIs(w, q);
    Divides(q, w, k - q * w);
  }

  lemma Divides(q: nat, w: nat, r: nat)
    requires r < w
    ensures (q * w + r) / w == q
  {
    var x := q * w + r;
    assert x == w * (x / w) + x % w;
    PosIs(w, q);
    SameQuotient(q, x / w, w, r, x % w);
  }

  lemma {:induction false} SameQuotient(q: nat, d: nat, w: nat, r: nat, m: nat)
    requires r < w && m < w && Pos(w, q) + r == w * d + m
    ensures d == q
  {
    PosIs(w, d);
    if d > q {
      PosMono(w, q, d);
    } else if d < q {
      PosMono(w, d, q);
    }
  }

  lemma {:induction false} LaneBound(w: nat, n: nat, t: nat, k: nat)
    requires Pos(w, t) <= k < Pos(w, t) + w && k < Pos(w, n)
    ensures t < n && Pos(w, t) + w <= Pos(w, n)
  {
    if t >= n {
      PosMono(w, n, t);
    }
    PosMono(w, t, n);
  }

  /** The lane of the first bit that is set: first_set_bit64 divided by the width. */
  method FirstLane(m: seq<bool>, w: nat, n: nat) returns (t: nat)
    requires |m| == BITS && IsWidth(w) && w > 0 && n == Count(w) && Nonzero(m)
    ensures t < n && Pos(w, t) + w <= BITS && Hit(false, m, w, t) && NoHits(false, m, w, t)
  {
    var k := FirstSetBit(m);
    t := Quot(k, w);
    CountOk(w);
    QuotPos(k, w);
    LaneBound(w, n, t, k);
    LowBits(m, w, t);
    ZeroBits(Lane(m, w, t));
    assert Lane(m, w, t)[k - Pos(w, t)];
  }

  /**
   * Look for the next lane that is a hit, in a word of n lanes from which a have been dropped: by test_zero and
   * find_zero, or by scanning for the first bit of a word in which only hits have bits.
   */
  method NextHit(eq: bool, bitscan: bool, v: seq<bool>, v2: seq<bool>, w: nat, n: nat, a: nat, first: nat,
                 ghost elems: seq<int>, ghost c: Cond, ghost value: int)
    returns (found: bool, k: nat)
    requires |v| == BITS && IsWidth(w) && w > 0 && n == Count(w) && first + n <= |elems| && a <= n
    requires Dropped(v, v2, w, a) && (bitscan ==> !eq) && Agree(eq, v, w, elems, first, c, value, n)
    ensures !found ==> Hits(elems, c, value, first + a, first + n) == []
    ensures found ==> a <= k < n
    ensures found ==>
              Hits(elems, c, value, first + a, first + n) == [first + k] + Hits(elems, c, value, first + k + 1,
                                                                                first + n)
  {
    CountOk(w);
    AnyIff(eq, v2, w);
    if !Any(eq, v2, w) {
      NoMoreLanes(eq, v, v2, w, elems, first, c, value, n, a, n);
      return false, 0;
    }
    var t := FirstOf(eq, bitscan, v2, w, n);
    k := a + t;
    found := k < n;
    if found {
      NextLane(eq, v, v2, w, elems, first, c, value, n, a, k);
    } else {
      NoMoreLanes(eq, v, v2, w, elems, first, c, value, n, a, t);
    }
  }

  /** The first hit of a word that has one. */
  method FirstOf(eq: bool, bitscan: bool, v: seq<bool>, w: nat, n: nat) returns (t: nat)
    requires |v| == BITS && IsWidth(w) && w > 0 && n == Count(w) && Any(eq, v, w) && (bitscan ==> !eq)
    ensures t < n && Pos(w, t) + w <= BITS && Hit(eq, v, w, t) && NoHits(eq, v, w, t)
  {
    if bitscan {
      t := FirstLane(v, w, n);
    } else {
      CountOk(w);
      AnyIff(eq, v, w);
      ghost var hit := FirstHit(eq, v, w, n);
      t := FindZero(eq, v, w, hit);
    }
  }

  /** The hits still to come from a word: lane k is the first of them, if one has been found. */
  ghost predicate ToCome(rest: seq<int>, elems: seq<int>, c: Cond, value: int, first: nat, n: nat, found: bool,
                         k: nat) {
    && first + n <= |elems|
    && (if found then k < n && rest == [first + k] + Hits(elems, c, value, first + k + 1, first + n) else rest == [])
  }

  /** The first n lanes of a word, read as unsigned numbers, are the elements from `first` on. */
  ghost predicate Plain(chunk: seq<bool>, w: nat, elems: seq<int>, first: nat, n: nat) {
    n == 0 || (
      && Plain(chunk, w, elems, first, n - 1) && Pos(w, n - 1) + w <= |chunk| && first + n <= |elems|
      && FromBits(Lane(chunk, w, n - 1)) == elems[first + n - 1])
  }

  lemma {:induction false} PlainAt(chunk: seq<bool>, w: nat, elems: seq<int>, first: nat, n: nat, k: nat)
    requires Plain(chunk, w, elems, first, n) && k < n
    ensures Pos(w, k) + w <= |chunk| && first + k < |elems| && FromBits(Lane(chunk, w, k)) == elems[first + k]
    decreases n
  {
    if k < n - 1 {
      PlainAt(chunk, w, elems, first, n - 1, k);
    }
  }

  /**
   * The value handed over with a match in lane k: the lane of the word searched, if that is a word of plain numbers.
   */
  method ValueOf(chunk: Option<seq<bool>>, w: nat, k: nat, ghost elems: seq<int>, ghost first: nat, ghost n: nat)
    returns (x: Option<int>)
    requires k < n && (chunk.Some? ==> Plain(chunk.value, w, elems, first, n))
    ensures x.Some? ==> first + k < |elems| && x.value == elems[first + k]
    ensures x.Some? <==> chunk.Some?
  {
    if chunk.None? {
      return None;
    }
    PlainAt(chunk.value, w, elems, first, n, k);
    x := Some(FromBits(Lane(chunk.value, w, k)));
  }

  /** Report lane k, drop it and the lanes before it, and look for the next. */
  method ReportLane(eq: bool, chunk: Option<seq<bool>>, v: seq<bool>, v2: seq<bool>, w: nat, n: nat, a: nat, k: nat,
                    first: nat, base: int, state: QueryState, ghost elems: seq<int>, ghost c: Cond, ghost value: int,
                    ghost done: seq<int>, ghost rest: seq<int>, ghost seen: seq<int>)
    returns (r: bool, v3: seq<bool>, found: bool, k': nat)
    requires |v| == BITS && IsWidth(w) && w > 0 && n == Count(w) && first + n <= |elems|
    requires Agree(eq, v, w, elems, first, c, value, n)
    requires chunk.Some? ==> !eq && Plain(chunk.value, w, elems, first, n)
    requires a <= k < n && Dropped(v, v2, w, a) && ToCome(rest, elems, c, value, first, n, true, k)
    requires Reported(done, base, seen, state.go, state.seen, true)
    modifies state
    ensures !r ==> Reported(done + rest, base, seen, state.go, state.seen, false)
    ensures r ==> Reported(done + [first + k], base, seen, state.go, state.seen, true)
    ensures r ==>
              Dropped(v, v3, w, k + 1) && ToCome(rest[1..], elems, c, value, first, n, found, k') && (found ==> k < k')
  {
    v3, found, k' := v2, false, 0;
    var x := ValueOf(chunk, w, k, elems, first, n);
    r := ReportHit(first + k, x, base, state, elems, done, rest, seen);
    if r {
      v3 := DropLanes(v, v2, w, a, k);
      found, k' := NextHit(eq, chunk.Some?, v, v3, w, n, k + 1, first, elems, c, value);
      assert rest[1..] == Hits(elems, c, value, first + k + 1, first + n);
    }
  }

  lemma Unreported(all: seq<int>, d: nat)
    requires d <= |all|
    ensures all[..d] + all[d..] == all
    ensures d < |all| ==> all[d..][0] == all[d] && all[d..][1..] == all[d + 1..] && all[..d] + [all[d]] == all[..d + 1]
  {
  }

  lemma OneReported(done: seq<int>, rest: seq<int>, all: seq<int>)
    requires done + rest == all && rest != []
    ensures done + [rest[0]] + rest[1..] == all
  {
  }

  /** Report the lanes of one word that are hits. */
  method ReportWord(eq: bool, chunk: Option<seq<bool>>, v: seq<bool>, w: nat, n: nat, first: nat, base: int,
                    state: QueryState, ghost elems: seq<int>, ghost c: Cond, ghost value: int, ghost all: seq<int>)
    returns (r: bool)
    requires |v| == BITS && IsWidth(w) && w > 0 && n == Count(w) && first + n <= |elems|
    requires Agree(eq, v, w, elems, first, c, value, n) && all == Hits(elems, c, value, first, first + n)
    requires chunk.Some? ==> !eq && Plain(chunk.value, w, elems, first, n)
    modifies state
    ensures Reported(all, base, old(state.seen), state.go, state.seen, r)
  {
    var v2, a := v, 0;
    ShrNone(v);
    ghost var done: seq<int>, rest := [], all;
    var found, k := NextHit(eq, chunk.Some?, v, v2, w, n, a, first, elems, c, value);
    while found
      invariant a <= n && Dropped(v, v2, w, a) && (found ==> a <= k)
      invariant done + rest == all && ToCome(rest, elems, c, value, first, n, found, k)
      invariant Reported(done, base, old(state.seen), state.go, state.seen, true)
      decreases n - a, found
    {
      var k0 := k;
      OneReported(done, rest, all);
      r, v2, found, k := ReportLane(eq, chunk, v, v2, w, n, a, k0, first, base, state, elems, c, value, done, rest,
                                    old(state.seen));
      if !r {
        return;
      }
      a, done, rest := k0 + 1, done + [first + k0], rest[1..];
    }
    assert done + [] == done;
    r := true;
  }
}
