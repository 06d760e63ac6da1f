/** compare_equality, compare_relation and find: words in the middle, elements at both ends, against a plain scan. */
module Compare {
  import opened Options
  import opened Bits
  import opened BitMemory
  import opened Lanes
  import opened Query
  import opened ArrayFind
  import opened IntArrays

  // ---- A word of memory holds n elements ----

  /** The first n lanes of a word hold the elements from `first` on. */
  ghost predicate LanesAre(v: seq<bool>, w: nat, elems: seq<int>, first: nat, n: nat) {
    n == 0 || (
      && LanesAre(v, w, elems, first, n - 1) && Pos(w, n - 1) + w <= |v| && first + n <= |elems|
      && Decode(Lane(v, w, n - 1)) == elems[first + n - 1])
  }

  lemma {:induction false} LanesAreAt(v: seq<bool>, w: nat, elems: seq<int>, first: nat, n: nat, i: nat)
    requires LanesAre(v, w, elems, first, n) && i < n
    ensures Pos(w, i) + w <= |v| && first + i < |elems| && Decode(Lane(v, w, i)) == elems[first + i]
    decreases n
  {
    if i < n - 1 {
      LanesAreAt(v, w, elems, first, n - 1, i);
    }
  }

  lemma {:induction false} WordLane(bits: seq<bool>, w: nat, p: nat, first: nat, i: nat)
    requires Pos(w, first) == 64 * p && 64 * p + 64 <= |bits| && Pos(w, i) + w <= 64
    ensures Pos(w, first + i) == 64 * p + Pos(w, i) && Lane(Word(bits, p), w, i) == Slice(bits, Pos(w, first + i), w)
  {
    PosAdd(w, first, i);
    SliceOfSlice(bits, 64 * p, 64, Pos(w, i), w);
  }

  lemma SliceOfSlice(bits: seq<bool>, a: nat, n: nat, b: nat, m: nat)
    requires a + n <= |bits| && b + m <= n
    ensures Slice(Slice(bits, a, n), b, m) == Slice(bits, a + b, m)
  {
    var t := Slice(bits, a, n);
    var l, r := Slice(t, b, m), Slice(bits, a + b, m);
    forall k | 0 <= k < m ensures l[k] == r[k] {
      assert t[b + k] == bits[a + (b + k)];
    }
  }

  lemma {:induction false} WordLanes(bits: seq<bool>, w: nat, size: nat, p: nat, first: nat, n: nat)
    requires Pos(w, size) <= |bits| && Pos(w, first) == 64 * p && 64 * p + 64 <= |bits| && Pos(w, n) <= 64
    requires first + n <= size
    ensures LanesAre(Word(bits, p), w, Run(bits, w, 0, size), first, n)
  {
    if n > 0 {
      var k: nat := n - 1;
      WordLanes(bits, w, size, p, first, k);
      WordLane(bits, w, p, first, k);
      RunAt(bits, w, 0, size, first + k);
    }
  }

  // ---- Which lanes are hits ----

  lemma XorBit(a: seq<bool>, b: seq<bool>, p: nat, w: nat, k: nat)
    requires |a| == |b| && p + w <= |a| && k < w
    ensures Slice(Xor(a, b), p, w)[k] == (Slice(a, p, w)[k] != Slice(b, p, w)[k])
  {
    assert Slice(Xor(a, b), p, w)[k] == Xor(a, b)[p + k];
  }

  lemma {:induction false} XorLane(a: seq<bool>, b: seq<bool>, w: nat, i: nat)
    requires |a| == |b| && Pos(w, i) + w <= |a|
    ensures ZeroLane(Xor(a, b), w, i) <==> Lane(a, w, i) == Lane(b, w, i)
  {
    var x, l, m := Lane(Xor(a, b), w, i), Lane(a, w, i), Lane(b, w, i);
    ZeroBits(x);
    forall k: nat | k < w ensures x[k] == (l[k] != m[k]) {
      XorBit(a, b, Pos(w, i), w, k);
    }
    if !ZeroLane(Xor(a, b), w, i) {
      var k :| 0 <= k < |x| && x[k];
      assert l[k] != m[k];
    }
  }

  /** After xor with the value in every lane, a lane is zero exactly if its element is the value. */
  lemma {:induction false} EqualAgrees(eq: bool, v: seq<bool>, w: nat, elems: seq<int>, first: nat, value: int, n: nat,
                                       m: nat)
    requires IsWidth(w) && |v| == Pos(w, n) && m <= n && LanesAre(v, w, elems, first, m) && Holds(w, value)
    ensures Agree(eq, Xor(v, Repeat(Encode(w, value), n)), w, elems, first, if eq then Equal else NotEqual, value, m)
  {
    if m > 0 {
      var k: nat := m - 1;
      EqualAgrees(eq, v, w, elems, first, value, n, k);
      RepeatLane(Encode(w, value), n, k);
      XorLane(v, Repeat(Encode(w, value), n), w, k);
      if Decode(Lane(v, w, k)) == value {
        DecodeEqual(Lane(v, w, k), Encode(w, value));
      }
    }
  }

  /** Where the tops of all lanes are clear, the bits of GreaterWord mark the greater elements. */
  lemma {:induction false} GreaterAgrees(v: seq<bool>, w: nat, elems: seq<int>, first: nat, value: int, n: nat, m: nat)
    requires w > 0 && |v| == Pos(w, n) && m <= n && LanesAre(v, w, elems, first, m) && TopsClear(v, w, n)
    requires 0 <= value < Pow2(w - 1)
    ensures Agree(false, GreaterWord(v, Magic(w, value, n), w, n), w, elems, first, Greater, value, m)
  {
    if m > 0 {
      var k: nat := m - 1;
      GreaterAgrees(v, w, elems, first, value, n, k);
      TopsClearAt(v, w, k, n);
      GreaterLane(v, w, value, n, k);
    }
  }

  /** Where the tops of all lanes are clear, elements are the unsigned numbers in the lanes. */
  lemma {:induction false} ClearIsPlain(v: seq<bool>, w: nat, elems: seq<int>, first: nat, n: nat, m: nat)
    requires m <= n && LanesAre(v, w, elems, first, m) && TopsClear(v, w, n)
    ensures Plain(v, w, elems, first, m)
  {
    if m > 0 {
      ClearIsPlain(v, w, elems, first, n, m - 1);
      TopsClearAt(v, w, m - 1, n);
    }
  }

  lemma {:induction false} GreaterLane(v: seq<bool>, w: nat, value: int, n: nat, k: nat)
    requires w > 0 && |v| == Pos(w, n) && k < n && TopsClear(v, w, n) && 0 <= value < Pow2(w - 1)
    ensures Pos(w, k) + w <= |v|
    ensures Hit(false, GreaterWord(v, Magic(w, value, n), w, n), w, k) <==> FromBits(Lane(v, w, k)) > value
  {
    PosMono(w, k, n);
    var l := Lane(GreaterWord(v, Magic(w, value, n), w, n), w, k);
    forall b | 0 <= b < w ensures l[b] <==> b == w - 1 && FromBits(Lane(v, w, k)) > value {
      GreaterAt(v, w, value, n, k, b);
    }
    ZeroBits(l);
    assert FromBits(Lane(v, w, k)) > value ==> l[w - 1];
  }

  // ---- One element after another ----

  lemma {:induction false} Fresh(base: int, seen: seq<int>, go: seq<int> -> bool)
    ensures Reported([], base, seen, go, seen, true)
  {
  }

  /** Element i comes first among what is left to scan. */
  lemma {:induction false} HitsFirst(elems: seq<int>, c: Cond, value: int, i: nat, end: nat)
    requires i < end <= |elems|
    ensures Hits(elems, c, value, i, end)
         == (if Sat(c, elems[i], value) then [i] else []) + Hits(elems, c, value, i + 1, end)
  {
    HitsSplit(elems, c, value, i, i + 1, end);
    assert Hits(elems, c, value, i, i) == [];
  }

  /** Report element i, which is x, if it matches; d of the hits in `all` have been reported before. */
  method TryOne(c: Cond, x: int, give: bool, value: int, i: nat, base: int, state: QueryState, ghost elems: seq<int>,
                ghost end: nat, ghost all: seq<int>, ghost d: nat, ghost seen: seq<int>)
    returns (r: bool, ghost d': nat)
    requires i < end <= |elems| && elems[i] == x && d <= |all| && all[d..] == Hits(elems, c, value, i, end)
    requires Reported(all[..d], base, seen, state.go, state.seen, true)
    modifies state
    ensures !r ==> Reported(all, base, seen, state.go, state.seen, false)
    ensures r ==> d' <= |all| && all[d'..] == Hits(elems, c, value, i + 1, end) && Reported(all[..d'], base, seen,
                                                                                            state.go, state.seen, true)
  {
    HitsFirst(elems, c, value, i, end);
    Unreported(all, d);
    r, d' := true, d;
    if Sat(c, x, value) {
      r := ReportHit(i, if give then Some(x) else None, base, state, elems, all[..d], all[d..], seen);
      d' := d + 1;
    }
  }

  /** Report the matching elements of start..end one by one, and hand them over if asked. */
  method ScanElements(c: Cond, give: bool, bits: seq<bool>, w: nat, value: int, start: nat, end: nat, base: int,
                      state: QueryState, ghost elems: seq<int>, ghost all: seq<int>)
    returns (r: bool)
    requires IsWidth(w) && |bits| % 64 == 0 && Pos(w, |elems|) <= |bits| && elems == Run(bits, w, 0, |elems|)
    requires start <= end <= |elems| && all == Hits(elems, c, value, start, end)
    modifies state
    ensures Reported(all, base, old(state.seen), state.go, state.seen, r)
  {
    ghost var d: nat := 0;
    assert all[..0] == [] && all[0..] == all;
    for i := start to end
      invariant d <= |all| && all[d..] == Hits(elems, c, value, i, end)
      invariant Reported(all[..d], base, old(state.seen), state.go, state.seen, true)
    {
      RunAt(bits, w, 0, |elems|, i);
      var x := GetDirect(bits, w, i);
      r, d := TryOne(c, x, give, value, i, base, state, elems, end, all, d, old(state.seen));
      if !r {
        return;
      }
    }
    assert all[..d] == all;
    r := true;
  }

  /** The lowest lane of a word from which i lanes have been dropped. */
  lemma {:induction false} LowestLane(chunk: seq<bool>, v: seq<bool>, w: nat, elems: seq<int>, first: nat, n: nat,
                                      i: nat)
    requires |chunk| == Pos(w, n) && LanesAre(chunk, w, elems, first, n) && i < n && Dropped(chunk, v, w, i)
    ensures w <= |v| && first + i < |elems| && Decode(Slice(v, 0, w)) == elems[first + i]
    ensures Dropped(chunk, Shr(v, w), w, i + 1)
  {
    ShrLane(chunk, w, i, 0, n);
    LanesAreAt(chunk, w, elems, first, n, i);
    ShrTwice(chunk, Pos(w, i), w);
  }

  /** Report the matching lanes of one word, shifting it down lane by lane (find_gtlt). */
  method ScanLanes(c: Cond, chunk: seq<bool>, w: nat, n: nat, value: int, first: nat, base: int, state: QueryState,
                   ghost elems: seq<int>, ghost all: seq<int>)
    returns (r: bool)
    requires w > 0 && |chunk| == Pos(w, n) && LanesAre(chunk, w, elems, first, n) && first + n <= |elems|
    requires all == Hits(elems, c, value, first, first + n)
    modifies state
    ensures Reported(all, base, old(state.seen), state.go, state.seen, r)
  {
    ghost var d: nat := 0;
    assert all[..0] == [] && all[0..] == all;
    var v := chunk;
    ShrNone(chunk);
    for i := 0 to n
      invariant Dropped(chunk, v, w, i)
      invariant d <= |all| && all[d..] == Hits(elems, c, value, first + i, first + n)
      invariant Reported(all[..d], base, old(state.seen), state.go, state.seen, true)
    {
      LowestLane(chunk, v, w, elems, first, n, i);
      r, d := TryOne(c, Decode(Slice(v, 0, w)), true, value, first + i, base, state, elems, first + n, all, d,
                     old(state.seen));
      if !r {
        return;
      }
      v := Shr(v, w);
    }
    assert all[..d] == all;
    r := true;
  }

  // ---- Word after word ----

  /** How a word is searched: for lanes equal or not equal, by the greater-than trick, or lane by lane. */
  datatype Way = ByEquality(eq: bool) | ByMagic | ByLanes(gt: bool)

  function CondOf(way: Way): Cond {
    match way
    case ByEquality(eq) => if eq then Equal else NotEqual
    case ByMagic => Greater
    case ByLanes(gt) => if gt then Greater else Less
  }

  /** What the value must be like for a way to work. */
  ghost predicate Suits(way: Way, w: nat, value: int)
    requires w > 0
  {
    match way
    case ByEquality(_) => Holds(w, value)
    case ByMagic => 0 <= value < Pow2(w - 1)
    case ByLanes(_) => true
  }

  /** Report the matching lanes of one word. The trick is used only if the top bits of all lanes are clear. */
  method ScanWord(way: Way, v: seq<bool>, w: nat, n: nat, value: int, first: nat, base: int, state: QueryState,
                  ghost elems: seq<int>, ghost all: seq<int>)
    returns (r: bool)
    requires |v| == BITS && IsWidth(w) && w > 0 && n == Count(w) && first + n <= |elems|
    requires LanesAre(v, w, elems, first, n)
    requires Suits(way, w, value) && all == Hits(elems, CondOf(way), value, first, first + n)
    modifies state
    ensures Reported(all, base, old(state.seen), state.go, state.seen, r)
  {
    CountOk(w);
    if way.ByEquality? {
      EqualAgrees(way.eq, v, w, elems, first, value, n, n);
      var x := Xor(v, Repeat(Encode(w, value), n));
      r := ReportWord(way.eq, None, x, w, n, first, base, state, elems, CondOf(way), value, all);
    } else if way.ByMagic? && !Nonzero(And(Upper(w), v)) {
      UpperClear(v, w);
      GreaterAgrees(v, w, elems, first, value, n, n);
      ClearIsPlain(v, w, elems, first, n, n);
      var m := GreaterWord(v, Magic(w, value, n), w, n);
      r := ReportWord(false, Some(v), m, w, n, first, base, state, elems, CondOf(way), value, all);
    } else {
      r := ScanLanes(CondOf(way), v, w, n, value, first, base, state, elems, all);
    }
  }

  /** Search one more word, after the elements start..first. */
  method AddWord(way: Way, v: seq<bool>, w: nat, n: nat, value: int, first: nat, base: int, state: QueryState,
                 ghost elems: seq<int>, ghost start: nat, ghost end: nat, ghost seen: seq<int>)
    returns (r: bool)
    requires |v| == BITS && IsWidth(w) && w > 0 && n == Count(w) && start <= first && first + n <= end <= |elems|
    requires LanesAre(v, w, elems, first, n) && Suits(way, w, value)
    requires Reported(Hits(elems, CondOf(way), value, start, first), base, seen, state.go, state.seen, true)
    modifies state
    ensures r ==> Reported(Hits(elems, CondOf(way), value, start, first + n), base, seen, state.go, state.seen, true)
    ensures !r ==> Reported(Hits(elems, CondOf(way), value, start, end), base, seen, state.go, state.seen, false)
  {
    ghost var mid, all := state.seen, Hits(elems, CondOf(way), value, first, first + n);
    r := ScanWord(way, v, w, n, value, first, base, state, elems, all);
    if r {
      Continued(elems, CondOf(way), value, start, first, first + n, base, seen, state.go, mid, state.seen, true);
    } else {
      StoppedLater(elems, CondOf(way), value, start, first, first + n, end, base, seen, state.go, mid, state.seen);
    }
  }

  /** A stretch searched after another one, in which the receiver stops for good. */
  lemma {:induction false} StoppedLater(elems: seq<int>, c: Cond, value: int, start: nat, first: nat, next: nat,
                                        end: nat, base: int, seen: seq<int>, go: seq<int> -> bool, mid: seq<int>,
                                        seen': seq<int>)
    requires start <= first <= next <= end <= |elems|
    requires Reported(Hits(elems, c, value, start, first), base, seen, go, mid, true)
    requires Reported(Hits(elems, c, value, first, next), base, mid, go, seen', false)
    ensures Reported(Hits(elems, c, value, start, end), base, seen, go, seen', false)
  {
    Continued(elems, c, value, start, first, next, base, seen, go, mid, seen', false);
    Stopped(elems, c, value, start, next, end, base, seen, go, seen');
  }

  lemma PosNext(n: nat, p: nat)
    ensures Pos(n, p + 1) == Pos(n, p) + n
  {
  }

  lemma {:induction false} PosWord(w: nat, n: nat, p: nat)
    requires Pos(w, n) == 64
    ensures Pos(w, Pos(n, p)) == 64 * p
  {
    if p > 0 {
      PosWord(w, n, p - 1);
      PosAdd(w, Pos(n, p - 1), n);
    }
  }

  /** A word that ends before the last element does holds n of the elements. */
  lemma {:induction false} WordInside(w: nat, n: nat, p: nat, end: nat)
    requires w > 0 && Pos(w, n) == 64 && 64 * p + 64 <= Pos(w, end)
    ensures Pos(n, p) + n <= end && Pos(w, Pos(n, p)) == 64 * p
  {
    PosWord(w, n, p);
    PosWord(w, n, p + 1);
    if end < Pos(n, p) + n {
      PosMono(w, end, Pos(n, p) + n);
    }
  }

  lemma {:induction false} WordReady(bits: seq<bool>, w: nat, n: nat, p: nat, end: nat, elems: seq<int>)
    requires w > 0 && Pos(w, n) == 64 && 64 * p + 64 <= Pos(w, end) && end <= |elems|
    requires Pos(w, |elems|) <= |bits| && elems == Run(bits, w, 0, |elems|)
    ensures Pos(n, p) + n <= end && 64 * p + 64 <= |bits|
    ensures LanesAre(Word(bits, p), w, elems, Pos(n, p), n)
  {
    PosMono(w, end, |elems|);
    WordInside(w, n, p, end);
    WordLanes(bits, w, |elems|, p, Pos(n, p), n);
  }

  /** Search word p, which starts with element `first` and ends before element `end`. */
  method NextWord(way: Way, bits: seq<bool>, w: nat, n: nat, value: int, p: nat, first: nat, base: int,
                  state: QueryState, ghost elems: seq<int>, ghost start: nat, ghost end: nat, ghost seen: seq<int>)
    returns (r: bool)
    requires IsWidth(w) && w > 0 && n == Count(w) && Suits(way, w, value) && 64 * p + 64 <= Pos(w, end)
    requires Pos(w, |elems|) <= |bits| && elems == Run(bits, w, 0, |elems|)
    requires start <= first == Pos(n, p) <= end <= |elems|
    requires Reported(Hits(elems, CondOf(way), value, start, first), base, seen, state.go, state.seen, true)
    modifies state
    ensures first + n <= end
    ensures r ==> Reported(Hits(elems, CondOf(way), value, start, first + n), base, seen, state.go, state.seen, true)
    ensures !r ==> Reported(Hits(elems, CondOf(way), value, start, end), base, seen, state.go, state.seen, false)
  {
    CountOk(w);
    WordReady(bits, w, n, p, end, elems);
    r := AddWord(way, Word(bits, p), w, n, value, first, base, state, elems, start, end, seen);
  }

  /**
   * Search whole words from word p on, as long as they end before the last element. Returns the first element not
   * searched.
   */
  method ScanWords(way: Way, bits: seq<bool>, w: nat, n: nat, value: int, p0: nat, start: nat, end: nat, endByte: nat,
                   base: int, state: QueryState, ghost elems: seq<int>)
    returns (r: bool, next: nat)
    requires IsWidth(w) && w > 0 && n == Count(w) && Suits(way, w, value)
    requires Pos(w, |elems|) <= |bits| && elems == Run(bits, w, 0, |elems|)
    requires start == Pos(n, p0) <= end <= |elems| && 8 * endByte <= Pos(w, end)
    modifies state
    ensures start <= next <= end
    ensures r ==>
              Reported(Hits(elems, CondOf(way), value, start, next), base, old(state.seen), state.go, state.seen, true)
    ensures !r ==>
              Reported(Hits(elems, CondOf(way), value, start, end), base, old(state.seen), state.go, state.seen, false)
  {
    CountOk(w);
    var p: nat := p0;
    next := start;
    Fresh(base, state.seen, state.go);
    assert Hits(elems, CondOf(way), value, start, start) == [];
    while 8 * p < endByte - 8
      invariant p0 <= p && next == Pos(n, p) && start <= next <= end
      invariant Reported(Hits(elems, CondOf(way), value, start, next), base, old(state.seen), state.go, state.seen,
                         true)
      decreases endByte - p
    {
      r := NextWord(way, bits, w, n, value, p, next, base, state, elems, start, end, old(state.seen));
      if !r {
        return;
      }
      PosNext(n, p);
      next, p := next + n, p + 1;
    }
    r := true;
  }

  /** The first word that starts at or behind element `start`: round_up divided by the elements per word. */
  function UpWord(start: nat, n: nat): nat
    requires n > 0
  {
    if Pos(n, Quot(start, n)) == start then Quot(start, n) else Quot(start, n) + 1
  }

  lemma {:induction false} UpWordIs(start: nat, n: nat)
    requires n > 0
    ensures Pos(n, UpWord(start, n)) == (if start % n == 0 then start else start + n - start % n) >= start
  {
    QuotPos(start, n);
    QuotIs(start, n);
    PosIs(n, Quot(start, n));
  }

  /** Elements up to the first whole word, then words if the width allows, then the rest. */
  method CompareWith(way: Way, words: bool, bits: seq<bool>, w: nat, value: int, start: nat, end: nat, base: int,
                     state: QueryState, ghost elems: seq<int>)
    returns (r: bool)
    requires IsWidth(w) && w > 0 && |bits| % 64 == 0 && Pos(w, |elems|) <= |bits| && elems == Run(bits, w, 0, |elems|)
    requires start <= end <= |elems| && (words ==> Suits(way, w, value))
    modifies state
    ensures Reported(Hits(elems, CondOf(way), value, start, end), base, old(state.seen), state.go, state.seen, r)
  {
    CountOk(w);
    var n, c := Count(w), CondOf(way);
    var q := UpWord(start, n);
    QuotPos(start, n);
    var ee := Pos(n, q);
    ee := if ee > end then end else ee;
    ghost var seen := state.seen;
    r := ScanElements(c, !way.ByEquality?, bits, w, value, start, ee, base, state, elems,
                      Hits(elems, c, value, start, ee));
    if !r {
      Stopped(elems, c, value, start, ee, end, base, seen, state.go, state.seen);
      return;
    }
    if ee >= end {
      return;
    }
    var next := ee;
    if words {
      r, next := MoreWords(way, bits, w, n, value, q, start, ee, end, base, state, elems, seen);
      if !r {
        return;
      }
    }
    r := MoreElements(c, bits, w, value, start, next, end, base, state, elems, seen);
  }

  method MoreWords(way: Way, bits: seq<bool>, w: nat, n: nat, value: int, q: nat, start: nat, ee: nat, end: nat,
                   base: int, state: QueryState, ghost elems: seq<int>, ghost seen: seq<int>)
    returns (r: bool, next: nat)
    requires IsWidth(w) && w > 0 && n == Count(w) && Suits(way, w, value)
    requires Pos(w, |elems|) <= |bits| && elems == Run(bits, w, 0, |elems|)
    requires start <= ee == Pos(n, q) <= end <= |elems|
    requires Reported(Hits(elems, CondOf(way), value, start, ee), base, seen, state.go, state.seen, true)
    modifies state
    ensures ee <= next <= end
    ensures r ==> Reported(Hits(elems, CondOf(way), value, start, next), base, seen, state.go, state.seen, true)
    ensures !r ==> Reported(Hits(elems, CondOf(way), value, start, end), base, seen, state.go, state.seen, false)
  {
    PosIs(w, end);
    ghost var mid := state.seen;
    r, next := ScanWords(way, bits, w, n, value, q, ee, end, end * w / 8, base, state, elems);
    Continued(elems, CondOf(way), value, start, ee, if r then next else end, base, seen, state.go, mid, state.seen, r);
  }

  method MoreElements(c: Cond, bits: seq<bool>, w: nat, value: int, start: nat, next: nat, end: nat, base: int,
                      state: QueryState, ghost elems: seq<int>, ghost seen: seq<int>)
    returns (r: bool)
    requires IsWidth(w) && |bits| % 64 == 0 && Pos(w, |elems|) <= |bits| && elems == Run(bits, w, 0, |elems|)
    requires start <= next <= end <= |elems|
    requires Reported(Hits(elems, c, value, start, next), base, seen, state.go, state.seen, true)
    modifies state
    ensures Reported(Hits(elems, c, value, start, end), base, seen, state.go, state.seen, r)
  {
    ghost var mid := state.seen;
    r := ScanElements(c, false, bits, w, value, next, end, base, state, elems, Hits(elems, c, value, next, end));
    Continued(elems, c, value, start, next, end, base, seen, state.go, mid, state.seen, r);
  }

  // ---- The two comparisons ----

  /** Elements equal to (or different from) a value that the width can hold. */
  method CompareEquality(eq: bool, bits: seq<bool>, w: nat, value: int, start: nat, end: nat, base: int,
                         state: QueryState, ghost elems: seq<int>)
    returns (r: bool)
    requires IsWidth(w) && w > 0 && |bits| % 64 == 0 && Pos(w, |elems|) <= |bits| && elems == Run(bits, w, 0, |elems|)
    requires start <= end <= |elems| && Fits(w, value)
    modifies state
    ensures Reported(Hits(elems, if eq then Equal else NotEqual, value, start, end), base, old(state.seen), state.go,
                     state.seen, r)
  {
    DecodeEncode(w, value);
    r := CompareWith(ByEquality(eq), w != 32 && w != 64, bits, w, value, start, end, base, state, elems);
  }

  /** The test that selects the trick: `low` is the lowest lane of the magic number. */
  predicate FastGuard(gt: bool, w: nat, value: int)
    requires w > 0
  {
    var low := (if gt then Pow2(w - 1) - 1 - value else value) % Pow2(w);
    value != low && value >= 0 && w >= 2 && value <= Pow2(w - 1) - 1 - (if gt then 1 else 0)
  }

  /** For greater-than it admits exactly the values for which no lane can carry; for less-than it admits none. */
  lemma {:induction false} GuardExact(gt: bool, w: nat, value: int)
    requires w > 0
    ensures FastGuard(gt, w, value) <==> gt && w >= 2 && 0 <= value <= Pow2(w - 1) - 2
  {
    if w >= 2 && 0 <= value <= Pow2(w - 1) - 1 {
      assert Pow2(w) == 2 * Pow2(w - 1) && Pow2(w - 1) == 2 * Pow2(w - 2);
      SmallMod(Pow2(w - 1) - 1 - value, Pow2(w));
      SmallMod(value, Pow2(w));
    }
  }

  lemma SmallMod(x: int, m: nat)
    requires 0 <= x < m
    ensures x % m == x
  {
  }

  /** Elements greater (or less) than any value. */
  method CompareRelation(gt: bool, bits: seq<bool>, w: nat, value: int, start: nat, end: nat, base: int,
                         state: QueryState, ghost elems: seq<int>)
    returns (r: bool)
    requires IsWidth(w) && w > 0 && |bits| % 64 == 0 && Pos(w, |elems|) <= |bits| && elems == Run(bits, w, 0, |elems|)
    requires start <= end <= |elems|
    modifies state
    ensures Reported(Hits(elems, if gt then Greater else Less, value, start, end), base, old(state.seen), state.go,
                     state.seen, r)
  {
    GuardExact(gt, w, value);
    var way := if FastGuard(gt, w, value) then ByMagic else ByLanes(gt);
    r := CompareWith(way, w <= 16, bits, w, value, start, end, base, state, elems);
  }

  // ---- The whole search ----

  predicate CanMatch(c: Cond, v: int, lbound: int, ubound: int) {
    match c
    case Equal => lbound <= v <= ubound
    case NotEqual => !(v == 0 && ubound == 0 && lbound == 0)
    case Greater => ubound > v
    case Less => lbound < v
  }

  predicate WillMatch(c: Cond, v: int, lbound: int, ubound: int) {
    match c
    case Equal => v == 0 && ubound == 0 && lbound == 0
    case NotEqual => v > ubound || v < lbound
    case Greater => lbound > v
    case Less => ubound < v
  }

  lemma {:induction false} BoundsDecide(bits: seq<bool>, w: nat, c: Cond, value: int, size: nat, start: nat, end: nat)
    requires IsWidth(w) && Pos(w, size) <= |bits| && start <= end <= size && |Run(bits, w, 0, size)| == size
    ensures !CanMatch(c, value, LBound(w), UBound(w)) ==> Hits(Run(bits, w, 0, size), c, value, start, end) == []
    ensures WillMatch(c, value, LBound(w), UBound(w)) ==>
              forall i :: start <= i < end ==> Sat(c, Run(bits, w, 0, size)[i], value)
    decreases end
  {
    if start < end {
      BoundsDecide(bits, w, c, value, size, start, end - 1);
      ElementFits(bits, w, end - 1, size);
      OneDecided(w, c, value, Run(bits, w, 0, size)[end - 1]);
    }
  }

  /** What the bounds say of one element. */
  lemma OneDecided(w: nat, c: Cond, value: int, x: int)
    requires IsWidth(w) && Fits(w, x)
    ensures !CanMatch(c, value, LBound(w), UBound(w)) ==> !Sat(c, x, value)
    ensures WillMatch(c, value, LBound(w), UBound(w)) ==> Sat(c, x, value)
  {
  }

  lemma {:induction false} LeftToCompare(w: nat, c: Cond, value: int)
    requires IsWidth(w) && CanMatch(c, value, LBound(w), UBound(w)) && !WillMatch(c, value, LBound(w), UBound(w))
    ensures w > 0 && (c.Equal? || c.NotEqual? ==> Fits(w, value))
  {
  }

  // ---- All elements match ----

  lemma {:induction false} HitsAll(elems: seq<int>, c: Cond, value: int, start: nat, end: nat)
    requires start <= end <= |elems| && forall i :: start <= i < end ==> Sat(c, elems[i], value)
    ensures |Hits(elems, c, value, start, end)| == end - start
    decreases end
  {
    if start < end {
      HitsAll(elems, c, value, start, end - 1);
    }
  }

  /** Reporting is cut off at `mid`: nothing is missed exactly if that is the end or the receiver has stopped. */
  lemma {:induction false} CutExact(elems: seq<int>, c: Cond, value: int, start: nat, mid: nat, end: nat, base: int,
                                    seen: seq<int>, go: seq<int> -> bool, seen': seq<int>, r: bool)
    requires start <= mid <= end <= |elems| && forall i :: start <= i < end ==> Sat(c, elems[i], value)
    requires Reported(Hits(elems, c, value, start, mid), base, seen, go, seen', r)
    ensures Reported(Hits(elems, c, value, start, end), base, seen, go, seen', r) <==> mid == end || !r
  {
    HitsSplit(elems, c, value, start, mid, end);
    ReportedIs(Hits(elems, c, value, start, mid), base, seen, go, seen', r);
    ReportedIs(Hits(elems, c, value, start, end), base, seen, go, seen', r);
    ReportAppend(Hits(elems, c, value, start, mid), Hits(elems, c, value, mid, end), base, seen, go);
    if mid < end && r {
      HitsAll(elems, c, value, mid, end);
      ReportGrows(Hits(elems, c, value, mid, end), base, seen', go);
    }
  }

  /** Where reporting is cut off for a receiver with a limit. */
  function CutEnd(start: nat, end: nat, limit: nat, count: nat): (mid: nat)
    requires start <= end
    ensures start <= mid <= end
  {
    if end - start > Room(limit, count) then start + Room(limit, count) else end
  }

  /** A receiver that stops at its limit has stopped when it is cut off. */
  lemma {:induction false} StoppedAtCut(elems: seq<int>, c: Cond, value: int, start: nat, end: nat, base: int,
                                        seen: seq<int>, go: seq<int> -> bool, limit: nat)
    requires start <= end <= |elems| && forall i :: start <= i < end ==> Sat(c, elems[i], value)
    requires StopsAtLimit(go, limit) && |seen| < limit < SIZES && CutEnd(start, end, limit, |seen|) < end
    ensures !Report(Hits(elems, c, value, start, CutEnd(start, end, limit, |seen|)), base, seen, go).1
  {
    RoomIs(limit, |seen|);
    var mid := CutEnd(start, end, limit, |seen|);
    HitsAll(elems, c, value, start, mid);
    ReportStops(Hits(elems, c, value, start, mid), base, seen, go, limit);
  }

  /** Report the indices from `start` on, as many as there are and the receiver has room for (find_all_will_match). */
  method ReportEvery(c: Cond, value: int, start: nat, end: nat, base: int, state: QueryState, ghost elems: seq<int>)
    returns (r: bool)
    requires start <= end <= |elems| && forall i :: start <= i < end ==> Sat(c, elems[i], value)
    modifies state
    ensures var hits := Hits(elems, c, value, start, CutEnd(start, end, state.limit, |old(state.seen)|));
            Reported(hits, base, old(state.seen), state.go, state.seen, r)
  {
    var end2 := CutEnd(start, end, state.limit, |state.seen|);
    ghost var all, d := Hits(elems, c, value, start, end2), 0 as nat;
    assert all[..0] == [] && all[0..] == all;
    for i := start to end2
      invariant d <= |all| && all[d..] == Hits(elems, c, value, i, end2)
      invariant Reported(all[..d], base, old(state.seen), state.go, state.seen, true)
    {
      HitsFirst(elems, c, value, i, end2);
      Unreported(all, d);
      r := ReportHit(i, None, base, state, elems, all[..d], all[d..], old(state.seen));
      if !r {
        return;
      }
      d := d + 1;
    }
    assert all[..d] == all;
    r := true;
  }

  /** How far a search reports. */
  function Reach(c: Cond, w: nat, value: int, start: nat, end: nat, limit: nat, count: nat): (mid: nat)
    requires IsWidth(w) && start <= end
    ensures start <= mid <= end
  {
    if CanMatch(c, value, LBound(w), UBound(w)) && WillMatch(c, value, LBound(w), UBound(w))
    then CutEnd(start, end, limit, count) else end
  }

  /** Before the search: it will not be cut off, or the receiver will have stopped by then. */
  ghost predicate Covered(elems: seq<int>, c: Cond, w: nat, value: int, start: nat, end: nat, base: int, seen: seq<int>,
                          go: seq<int> -> bool, limit: nat)
    requires IsWidth(w) && start <= end <= |elems|
  {
    var reach := Reach(c, w, value, start, end, limit, |seen|);
    reach == end || !Report(Hits(elems, c, value, start, reach), base, seen, go).1
  }

  /** The receivers there are, those that count up to their limit and the one that wants the first match, stop at it. */
  lemma ReceiversStop(limit: nat)
    ensures StopsAtLimit((s: seq<int>) => limit > |s|, limit) && StopsAtLimit((s: seq<int>) => false, limit)
  {
  }

  /** What a search has reported, against a scan of start..end. */
  lemma {:induction false} ReachExact(bits: seq<bool>, c: Cond, w: nat, size: nat, value: int, start: nat, end: nat,
                                      base: int, seen: seq<int>, go: seq<int> -> bool, limit: nat, seen': seq<int>,
                                      r: bool)
    requires IsWidth(w) && Pos(w, size) <= |bits| && start <= end <= size && |Run(bits, w, 0, size)| == size
    requires limit < SIZES
    requires Reported(Hits(Run(bits, w, 0, size), c, value, start, Reach(c, w, value, start, end, limit, |seen|)), base,
                      seen, go, seen', r)
    ensures var exact := Reported(Hits(Run(bits, w, 0, size), c, value, start, end), base, seen, go, seen', r);
            && (exact <==> Covered(Run(bits, w, 0, size), c, w, value, start, end, base, seen, go, limit))
            && (StopsAtLimit(go, limit) && |seen| < limit ==> exact)
  {
    var elems, mid := Run(bits, w, 0, size), Reach(c, w, value, start, end, limit, |seen|);
    ReportedIs(Hits(elems, c, value, start, mid), base, seen, go, seen', r);
    if mid < end {
      BoundsDecide(bits, w, c, value, size, start, end);
      CutExact(elems, c, value, start, mid, end, base, seen, go, seen', r);
      if StopsAtLimit(go, limit) && |seen| < limit {
        StoppedAtCut(elems, c, value, start, end, base, seen, go, limit);
      }
    }
  }

  /**
   * A receiver that goes on past its limit misses matches: of two zeros it sees one, and is told that all went well.
   */
  lemma LimitOverrun()
    ensures var elems, go := [0, 0], (s: seq<int>) => true;
            && Reach(Equal, 0, 0, 0, 2, 1, 0) == 1 && Report(Hits(elems, Equal, 0, 0, 1), 0, [], go) == ([0], true)
            && Report(Hits(elems, Equal, 0, 0, 2), 0, [], go) == ([0, 1], true)
  {
    var elems, go := [0, 0], (s: seq<int>) => true;
    Widths(0);
    assert Hits(elems, Equal, 0, 0, 0) == [] && Hits(elems, Equal, 0, 0, 1) == [0] && Hits(elems, Equal, 0, 0,
                                                                                           2) == [0, 1];
    assert [0, 1][1..] == [1];
    assert Report([1], 0, [0], go) == ([0, 1], true);
  }

  /** The branches of find_optimized. */
  method Search(c: Cond, bits: seq<bool>, w: nat, size: nat, value: int, start: nat, end: nat, base: int,
                state: QueryState)
    returns (r: bool)
    requires IsWidth(w) && |bits| % 64 == 0 && Pos(w, size) <= |bits| && start <= end <= size
    requires |Run(bits, w, 0, size)| == size
    modifies state
    ensures Reported(Hits(Run(bits, w, 0, size), c, value, start,
                          Reach(c, w, value, start, end, state.limit, |old(state.seen)|)),
                     base, old(state.seen), state.go, state.seen, r)
  {
    ghost var elems := Run(bits, w, 0, size);
    if start == end {
      return true;
    }
    BoundsDecide(bits, w, c, value, size, start, end);
    if !CanMatch(c, value, LBound(w), UBound(w)) {
      return true;
    }
    if WillMatch(c, value, LBound(w), UBound(w)) {
      r := ReportEvery(c, value, start, end, base, state, elems);
      return;
    }
    LeftToCompare(w, c, value);
    if c.Equal? || c.NotEqual? {
      r := CompareEquality(c.Equal?, bits, w, value, start, end, base, state, elems);
    } else {
      r := CompareRelation(c.Greater?, bits, w, value, start, end, base, state, elems);
    }
  }

  /**
   * find_optimized, for any condition and any value: the matching indices in order, until the receiver stops. If all
   * elements match by their bounds alone, reporting ends at the receiver's limit, whatever the receiver says. So the
   * search is exact if and only if it will not be cut off or the receiver will have stopped by then, as one that stops
   * at its limit always has.
   */
  method Find(c: Cond, bits: seq<bool>, w: nat, size: nat, value: int, start: nat, end: nat, base: int,
              state: QueryState)
    returns (r: bool)
    requires IsWidth(w) && |bits| % 64 == 0 && Pos(w, size) <= |bits| && start <= end <= size && state.limit < SIZES
    modifies state
    ensures |Run(bits, w, 0, size)| == size
    ensures var reach := Reach(c, w, value, start, end, state.limit, |old(state.seen)|);
            Reported(Hits(Run(bits, w, 0, size), c, value, start, reach), base, old(state.seen), state.go, state.seen,
                     r)
    ensures var elems, was := Run(bits, w, 0, size), old(state.seen);
            var exact := Reported(Hits(elems, c, value, start, end), base, was, state.go, state.seen, r);
            && (exact <==> Covered(elems, c, w, value, start, end, base, was, state.go, state.limit))
            && (StopsAtLimit(state.go, state.limit) && |old(state.seen)| < state.limit ==> exact)
  {
    RunSize(bits, w, 0, size);
    ghost var seen := state.seen;
    r := Search(c, bits, w, size, value, start, end, base, state);
    ReachExact(bits, c, w, size, value, start, end, base, seen, state.go, state.limit, state.seen, r);
  }
}
