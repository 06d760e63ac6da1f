/** What a search should report: the indices that satisfy a condition, in order, until the receiver says stop. */
module Query {
  import opened Options

  /** Sizes are 64-bit numbers. */
  const SIZES: nat := 0x1_0000_0000_0000_0000

  datatype Cond = Equal | NotEqual | Greater | Less

  predicate Sat(c: Cond, x: int, v: int) {
    match c
    case Equal => x == v
    case NotEqual => x != v
    case Greater => x > v
    case Less => x < v
  }

  /** The indices in from..end whose elements satisfy the condition. */
  ghost function Hits(elems: seq<int>, c: Cond, v: int, from: nat, end: nat): seq<int>
    requires from <= end <= |elems|
    decreases end
  {
    if from == end then []
    else Hits(elems, c, v, from, end - 1) + (if Sat(c, elems[end - 1], v) then [end - 1] else [])
  }

  lemma {:induction false} HitsSplit(elems: seq<int>, c: Cond, v: int, from: nat, mid: nat, end: nat)
    requires from <= mid <= end <= |elems|
    ensures Hits(elems, c, v, from, end) == Hits(elems, c, v, from, mid) + Hits(elems, c, v, mid, end)
    decreases end
  {
    if mid < end {
      HitsSplit(elems, c, v, from, mid, end - 1);
    }
  }

  /** The hits are exactly the satisfying indices, in ascending order. */
  lemma {:induction false} HitsExact(elems: seq<int>, c: Cond, v: int, from: nat, end: nat)
    requires from <= end <= |elems|
    ensures forall i :: i in Hits(elems, c, v, from, end) <==> from <= i < end && Sat(c, elems[i], v)
    ensures forall j, k :: 0 <= j < k < |Hits(elems, c, v, from, end)| ==>
              Hits(elems, c, v, from, end)[j] < Hits(elems, c, v, from, end)[k]
    decreases end
  {
    if from < end {
      HitsExact(elems, c, v, from, end - 1);
      var h := Hits(elems, c, v, from, end - 1);
      forall j | 0 <= j < |h| ensures h[j] < end - 1 {
        assert h[j] in h;
      }
    }
  }

  /** Reporting indices one by one: what has been reported in the end, and whether the receiver wants more. */
  ghost function Report(hits: seq<int>, base: int, seen: seq<int>, go: seq<int> -> bool): (seq<int>, bool) {
    if hits == [] then (seen, true)
    else
      var seen' := seen + [hits[0] + base];
      if go(seen') then Report(hits[1..], base, seen', go) else (seen', false)
  }

  function First(hits: seq<int>): Option<int> {
    if hits == [] then None else Some(hits[0])
  }

  /** The same as a relation. */
  ghost predicate Reported(hits: seq<int>, base: int, seen: seq<int>, go: seq<int> -> bool, seen': seq<int>, r: bool) {
    match First(hits)
    case None => seen' == seen && r
    case Some(i) =>
      var next := seen + [i + base];
      if go(next) then Reported(hits[1..], base, next, go, seen', r) else seen' == next && !r
  }

  lemma {:induction false} ReportedIs(hits: seq<int>, base: int, seen: seq<int>, go: seq<int> -> bool, seen': seq<int>,
                                      r: bool)
    ensures Reported(hits, base, seen, go, seen', r) <==> Report(hits, base, seen, go) == (seen', r)
    decreases |hits|
  {
    if hits != [] {
      ReportedIs(hits[1..], base, seen + [hits[0] + base], go, seen', r);
    }
  }

  /** Reporting in two parts. */
  lemma {:induction false} ReportAppend(a: seq<int>, b: seq<int>, base: int, seen: seq<int>, go: seq<int> -> bool)
    ensures var first := Report(a, base, seen, go);
            Report(a + b, base, seen, go) == if first.1 then Report(b, base, first.0, go) else first
    decreases |a|
  {
    if a == [] {
      assert a + b == b;
    } else {
      var seen' := seen + [a[0] + base];
      assert (a + b)[0] == a[0] && (a + b)[1..] == a[1..] + b;
      ReportAppend(a[1..], b, base, seen', go);
    }
  }

  /** One more hit. */
  lemma {:induction false} ReportOne(a: seq<int>, i: int, base: int, seen: seq<int>, go: seq<int> -> bool,
                                     mid: seq<int>)
    requires Reported(a, base, seen, go, mid, true)
    ensures Reported(a + [i], base, seen, go, mid + [i + base], go(mid + [i + base]))
  {
    ReportedIs(a, base, seen, go, mid, true);
    ReportAppend(a, [i], base, seen, go);
    assert [i][1..] == [];
    ReportedIs(a + [i], base, seen, go, mid + [i + base], go(mid + [i + base]));
  }

  /** After a stop nothing more is reported. */
  lemma {:induction false} ReportNoMore(a: seq<int>, b: seq<int>, base: int, seen: seq<int>, go: seq<int> -> bool,
                                        seen': seq<int>)
    requires Reported(a, base, seen, go, seen', false)
    ensures Reported(a + b, base, seen, go, seen', false)
  {
    ReportedIs(a, base, seen, go, seen', false);
    ReportAppend(a, b, base, seen, go);
    ReportedIs(a + b, base, seen, go, seen', false);
  }

  /** One part reported after the other. */
  lemma {:induction false} ReportMore(a: seq<int>, b: seq<int>, base: int, seen: seq<int>, go: seq<int> -> bool,
                                      mid: seq<int>, seen': seq<int>, r: bool)
    requires Reported(a, base, seen, go, mid, true) && Reported(b, base, mid, go, seen', r)
    ensures Reported(a + b, base, seen, go, seen', r)
  {
    ReportedIs(a, base, seen, go, mid, true);
    ReportedIs(b, base, mid, go, seen', r);
    ReportAppend(a, b, base, seen, go);
    ReportedIs(a + b, base, seen, go, seen', r);
  }

  /** Reports only add to what has been seen. */
  lemma {:induction false} ReportGrows(hits: seq<int>, base: int, seen: seq<int>, go: seq<int> -> bool)
    ensures |Report(hits, base, seen, go).0| >= |seen| + if hits == [] then 0 else 1
  {
    if hits != [] {
      ReportGrows(hits[1..], base, seen + [hits[0] + base], go);
    }
  }

  // ---- Limits ----

  /** The receiver stops when it has seen as many matches as its limit says. */
  ghost predicate StopsAtLimit(go: seq<int> -> bool, limit: nat) {
    forall s :: |s| >= limit ==> !go(s)
  }

  /** How many reports a receiver has left, in 64-bit arithmetic. */
  function Room(limit: nat, count: nat): nat {
    (limit - count) % SIZES
  }

  lemma RoomIs(limit: nat, count: nat)
    requires count < limit < SIZES
    ensures Room(limit, count) == limit - count
  {
  }

  lemma {:induction false} ReportStops(hits: seq<int>, base: int, seen: seq<int>, go: seq<int> -> bool, limit: nat)
    requires StopsAtLimit(go, limit) && hits != [] && |seen| + |hits| >= limit
    ensures !Report(hits, base, seen, go).1
    decreases |hits|
  {
    var seen' := seen + [hits[0] + base];
    if |hits| > 1 {
      ReportStops(hits[1..], base, seen', go, limit);
    } else {
      assert |seen'| >= limit;
    }
  }

  /** The receiver of a search (QueryStateBase). It has counted what it has seen. */
  class QueryState {
    var seen: seq<int>
    const go: seq<int> -> bool
    const limit: nat

    constructor (go: seq<int> -> bool, limit: nat)
      requires limit < SIZES
      ensures seen == [] && this.go == go && this.limit == limit
    {
      seen := [];
      this.go := go;
      this.limit := limit;
    }

    /** A match at i, with or without the element x itself. */
    method Match(i: int, v: Option<int>, ghost x: int) returns (r: bool)
      requires v.Some? ==> v.value == x
      modifies this
      ensures seen == old(seen) + [i] && r == go(seen)
    {
      seen := seen + [i];
      r := go(seen);
    }
  }
}
