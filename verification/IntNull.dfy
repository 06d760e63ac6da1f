/** ArrayIntNull: a list of optional integers over Array, with a null value that moves out of the way. */
module IntNull {
  import opened Options
  import opened BitMemory
  import opened IntArrays
  import opened Query
  import opened Compare
  import opened NullSearch
  import opened NullSpec

  /** A receiver that stops at the first match has seen the first hit. */
  lemma {:induction false} FirstReported(hits: seq<int>, go: seq<int> -> bool, seen: seq<int>, r: bool)
    requires Reported(hits, 0, [], go, seen, r) && forall s :: !go(s)
    ensures seen == if hits == [] then [] else [hits[0]]
  {
  }

  /** The first hit is the first element that equals the value. */
  lemma {:induction false} FirstHitIs(elems: seq<int>, value: int, start: nat, hits: seq<int>)
    requires start <= |elems| && hits == Hits(elems, Equal, value, start, |elems|)
    ensures hits == [] ==> forall i :: start <= i < |elems| ==> elems[i] != value
    ensures hits != [] ==> start <= hits[0] < |elems| && elems[hits[0]] == value
    ensures hits != [] ==> forall i :: start <= i < hits[0] ==> elems[i] != value
  {
    HitsExact(elems, Equal, value, start, |elems|);
    if hits == [] {
      forall i | start <= i < |elems| ensures elems[i] != value {
        assert i !in hits;
      }
    } else {
      assert hits[0] in hits;
      forall i | start <= i < hits[0] ensures elems[i] != value {
        NotBefore(hits, i);
      }
    }
  }

  lemma NotBefore(hits: seq<int>, i: int)
    requires hits != [] && i < hits[0] && forall j, k :: 0 <= j < k < |hits| ==> hits[j] < hits[k]
    ensures i !in hits
  {
  }

  /** The first element from `start` on that equals the value, found by the word-wise search. */
  method FindFirst(arr: IntArray, value: int, start: nat) returns (r: Option<nat>)
    requires arr.Valid() && start <= arr.size
    ensures |arr.Contents()| == arr.size
    ensures r.None? ==> forall i :: start <= i < arr.size ==> arr.Contents()[i] != value
    ensures r.Some? ==> start <= r.value < arr.size && arr.Contents()[r.value] == value
    ensures r.Some? ==> forall i :: start <= i < r.value ==> arr.Contents()[i] != value
  {
    RunSize(arr.bits, arr.width, 0, arr.size);
    var state := new QueryState(_ => false, 1);
    ghost var elems, hits := arr.Contents(), Hits(arr.Contents(), Equal, value, start, arr.size);
    var go := Find(Equal, arr.bits, arr.width, arr.size, value, start, arr.size, 0, state);
    FirstReported(hits, state.go, state.seen, go);
    FirstHitIs(elems, value, start, hits);
    r := if state.seen == [] then None else Some(state.seen[0]);
  }

  lemma ReplacedStep(s: seq<int>, nul: int, i: nat, found: nat)
    requires s != [] && 1 <= i <= found < |s|
    requires var t := ReplacedTo(s, nul, i);
             t[found] == s[0] && forall k :: i <= k < found ==> t[k] != s[0]
    ensures ReplacedTo(s, nul, found + 1) == ReplacedTo(s, nul, i)[found := nul]
  {
    var t, l, r := ReplacedTo(s, nul, i), ReplacedTo(s, nul, found + 1), ReplacedTo(s, nul, i)[found := nul];
    forall k | 0 <= k < |s| ensures l[k] == r[k] {
      assert i <= k ==> t[k] == s[k];
    }
  }

  lemma ReplacedEnd(s: seq<int>, nul: int, i: nat)
    requires s != [] && 1 <= i <= |s|
    requires var t := ReplacedTo(s, nul, i);
             forall k :: i <= k < |t| ==> t[k] != s[0]
    ensures ReplacedTo(s, nul, |s|) == ReplacedTo(s, nul, i)
  {
    var t, l := ReplacedTo(s, nul, i), ReplacedTo(s, nul, |s|);
    forall k | 0 <= k < |s| ensures l[k] == t[k] {
      assert i <= k ==> t[k] == s[k];
    }
  }

  class IntNullArray {
    const arr: IntArray

    ghost predicate Valid()
      reads this, arr
    {
      arr.Valid() && 0 < arr.size <= MAX_SIZE
    }

    ghost function Under(): Store
      requires Valid()
      reads this, arr
    {
      Store(arr.width, arr.Contents())
    }

    constructor ()
      ensures Valid() && fresh(arr) && Under() == Store(0, [0]) && Values(Under().s) == []
    {
      arr := new IntArray();
      new;
      arr.Insert(0, 0);
      assert arr.Contents() == [0];
      Widths(0);
    }

    lemma Facts()
      requires Valid()
      ensures |arr.Contents()| == arr.size && AllFit(Under())
    {
      RunSize(arr.bits, arr.width, 0, arr.size);
      forall i | 0 <= i < arr.size ensures Fits(arr.width, arr.Contents()[i]) {
        ElementFits(arr.bits, arr.width, i, arr.size);
      }
    }

    method Get(i: nat) returns (v: Option<int>)
      requires Valid() && i + 1 < arr.size
      ensures |arr.Contents()| == arr.size && v == Values(arr.Contents())[i]
    {
      var x := arr.Get(i + 1);
      var nul := arr.Get(0);
      v := if x == nul then None else Some(x);
    }

    /** A null value is usable if it is the present one or is not stored. */
    method CanUseAsNull(candidate: int) returns (ok: bool)
      requires Valid()
      ensures |arr.Contents()| == arr.size
      ensures (ok <==> candidate == arr.Contents()[0] || candidate !in arr.Contents()[1..])
    {
      Facts();
      var nul := arr.Get(0);
      if candidate == nul {
        return true;
      }
      var found := FindFirst(arr, candidate, 1);
      ok := found.None?;
      ghost var s := arr.Contents();
      if ok {
        forall i | 0 <= i < |s[1..]| ensures s[1..][i] != candidate {
          assert s[1..][i] == s[i + 1];
        }
      } else {
        assert s[1..][found.value - 1] == candidate;
      }
    }

    /** Try candidates from a seed on until one is usable; the elements leave at most size + 1 of them out. */
    method ChooseRandomNull(incoming: int, seed: int) returns (candidate: int, probes: nat)
      requires Valid() && IsInt64(seed)
      ensures |arr.Contents()| == arr.size && candidate == Chosen(arr.Contents(), incoming, seed)
      ensures Usable(arr.Contents(), incoming, candidate)
      ensures probes <= arr.size + 1
    {
      Facts();
      candidate, probes := seed, 0;
      ghost var stored := arr.Contents()[1..];
      var done := false;
      while !done
        invariant IsInt64(candidate) && probes <= arr.size + 1
        invariant done ==>
                    Usable(arr.Contents(), incoming, candidate) && candidate == Chosen(arr.Contents(), incoming, seed)
        invariant !done ==>
                    ChosenFrom(arr.Contents(), incoming, seed, probes + 1) == Chosen(arr.Contents(), incoming, seed)
        invariant !done ==>
                    candidate == Candidate(seed, probes) && FirstCandidates(seed, probes) <= {incoming} + Elems(stored)
        decreases !done, arr.size + 1 - probes
      {
        FewRefused(seed, probes, incoming, stored);
        candidate := NextCandidate(candidate);
        probes := probes + 1;
        assert candidate == Candidate(seed, probes);
        if candidate != incoming {
          done := CanUseAsNull(candidate);
          ElemsOk(stored, candidate);
        }
      }
    }

    /** Make `nul` the null value and rewrite the nulls. */
    method ReplaceNullsWith(nul: int)
      requires Valid() && IsInt64(nul)
      modifies arr
      ensures Valid() && arr.size == old(arr.size)
      ensures Under() == Store(Wider(old(arr.width), nul), ReplacedTo(old(arr.Contents()), nul, |old(arr.Contents())|))
    {
      Facts();
      ghost var s, w := arr.Contents(), Wider(arr.width, nul);
      var before := arr.Get(0);
      arr.Set(0, nul);
      WiderOk(old(arr.width), nul);
      assert s[0 := nul] == ReplacedTo(s, nul, 1);
      var i: nat := 1;
      var done := false;
      while !done
        invariant arr.Valid() && arr.size == |s| && arr.width == w && 1 <= i <= |s|
        invariant arr.Contents() == ReplacedTo(s, nul, i)
        invariant done ==> forall k :: i <= k < |arr.Contents()| ==> arr.Contents()[k] != s[0]
        decreases !done, |s| - i
      {
        var found := FindFirst(arr, before, i);
        if found.None? {
          done := true;
        } else {
          ReplacedStep(s, nul, i, found.value);
          arr.Set(found.value, nul);
          i := found.value + 1;
        }
      }
      ReplacedEnd(s, nul, i);
    }

    /** Move the null value out of the way of one that is about to be stored. */
    method AvoidNullCollision(value: int, seed: int)
      requires Valid() && IsInt64(value) && IsInt64(seed)
      modifies arr
      ensures Valid() && arr.size == old(arr.size) && |old(arr.Contents())| == arr.size
      ensures Searches(old(Under()), value) ==>
                Usable(old(arr.Contents()), value, Chosen(old(arr.Contents()), value, seed))
      ensures Under() == Avoided(old(Under()), value, Chosen(old(arr.Contents()), value, seed))
    {
      Facts();
      NewWidthOk(value);
      BitWidthLeast(value, 64);
      var nul := arr.Get(0);
      if arr.width == 64 {
        if value == nul {
          var newNull, probes := ChooseRandomNull(value, seed);
          ReplaceNullsWith(newNull);
        }
      } else if value < LBound(arr.width) || value >= UBound(arr.width) {
        var newWidth := NewWidth(value);
        var newNull;
        if newWidth == 64 {
          var probes;
          newNull, probes := ChooseRandomNull(value, seed);
        } else {
          Widths(newWidth);
          newNull := UBound(newWidth);
        }
        ReplaceNullsWith(newNull);
      }
    }

    /** Store a value or null before position i. */
    method StoreBefore(i: nat, v: Option<int>, seed: int)
      requires Valid() && i < arr.size < MAX_SIZE && (v.Some? ==> IsInt64(v.value)) && IsInt64(seed)
      modifies arr
      ensures Valid() && arr.size == old(arr.size) + 1 && |old(arr.Contents())| == old(arr.size)
      ensures v.Some? ==> Found(old(Under()), v.value, Chosen(old(arr.Contents()), v.value, seed))
      ensures Under() == InsertedStore(old(Under()), i, v, seed)
    {
      Facts();
      ghost var st := Under();
      if v.None? {
        var nul := arr.Get(0);
        arr.Insert(i + 1, nul);
      } else {
        AvoidNullCollision(v.value, seed);
        StoredIsAvoided(st, v.value, Chosen(st.s, v.value, seed));
        arr.Insert(i + 1, v.value);
      }
    }

    /** Insert a value or null before position i. */
    method Insert(i: nat, v: Option<int>, seed: int)
      requires Valid() && i < arr.size < MAX_SIZE && (v.Some? ==> IsInt64(v.value)) && IsInt64(seed)
      modifies arr
      ensures Valid() && arr.size == old(arr.size) + 1 && |old(arr.Contents())| == old(arr.size)
      ensures Values(arr.Contents())
           == old(Values(arr.Contents()))[..i] + [Shown(old(Under()), v)] + old(Values(arr.Contents()))[i..]
      ensures Under() == InsertedStore(old(Under()), i, v, seed)
      ensures old(NullOk(Under())) ==> (NullOk(Under()) <==> !Losing(old(Under()), v, seed))
    {
      Facts();
      ghost var st := Under();
      StoreBefore(i, v, seed);
      InsertedOk(st, i, v, seed);
    }

    /** Store a value or null at position i. */
    method StoreAt(i: nat, v: Option<int>, seed: int)
      requires Valid() && i + 1 < arr.size && (v.Some? ==> IsInt64(v.value)) && IsInt64(seed)
      modifies arr
      ensures Valid() && arr.size == old(arr.size) && |old(arr.Contents())| == arr.size
      ensures v.Some? ==> Found(old(Under()), v.value, Chosen(old(arr.Contents()), v.value, seed))
      ensures Under() == SetStore(old(Under()), i, v, seed)
    {
      Facts();
      ghost var st := Under();
      if v.None? {
        var nul := arr.Get(0);
        arr.Set(i + 1, nul);
      } else {
        AvoidNullCollision(v.value, seed);
        StoredIsAvoided(st, v.value, Chosen(st.s, v.value, seed));
        arr.Set(i + 1, v.value);
      }
    }

    /** Overwrite position i with a value or null. */
    method Set(i: nat, v: Option<int>, seed: int)
      requires Valid() && i + 1 < arr.size && (v.Some? ==> IsInt64(v.value)) && IsInt64(seed)
      modifies arr
      ensures Valid() && arr.size == old(arr.size) && |old(arr.Contents())| == arr.size
      ensures Values(arr.Contents()) == old(Values(arr.Contents()))[i := Shown(old(Under()), v)]
      ensures Under() == SetStore(old(Under()), i, v, seed)
      ensures old(NullOk(Under())) ==> (NullOk(Under()) <==> !Losing(old(Under()), v, seed))
    {
      Facts();
      ghost var st := Under();
      StoreAt(i, v, seed);
      SetOk(st, i, v, seed);
    }

    method Erase(i: nat)
      requires Valid() && i + 1 < arr.size
      modifies arr
      ensures Valid() && arr.size == old(arr.size) - 1 && |old(arr.Contents())| == old(arr.size)
      ensures Values(arr.Contents()) == old(Values(arr.Contents()))[..i] + old(Values(arr.Contents()))[i + 1..]
      ensures Under() == ErasedStore(old(Under()), i) && (NullOk(Under()) <==> old(NullOk(Under())))
    {
      Facts();
      ErasedValues(arr.Contents(), i);
      arr.Erase(i + 1);
    }

    method Clear()
      requires Valid()
      modifies arr
      ensures Valid() && arr.size == 1 && Under() == Store(0, [0]) && NullOk(Under()) && Values(arr.Contents()) == []
    {
      Facts();
      arr.Truncate(0);
      arr.Insert(arr.size, 0);
      assert arr.Contents() == [0];
      Widths(0);
    }
  }

  // ---- Runs ----

  /** Operations, each with the number the search for a null value would start from. */
  datatype Op =
    | Insert(i: nat, v: Option<int>, seed: int)
    | Set(i: nat, v: Option<int>, seed: int)
    | Erase(i: nat)
    | Clear

  predicate Storable(v: Option<int>, seed: int) {
    (v.Some? ==> IsInt64(v.value)) && IsInt64(seed)
  }

  /** What a caller owes when the list has n elements. */
  predicate Legal(n: nat, op: Op) {
    match op
    case Insert(i, v, seed) => i <= n && n + 1 < MAX_SIZE && Storable(v, seed)
    case Set(i, v, seed) => i < n && Storable(v, seed)
    case Erase(i) => i < n
    case Clear => true
  }

  function SizeAfter(n: nat, op: Op): nat
    requires Legal(n, op)
  {
    match op
    case Insert(_, _, _) => n + 1
    case Set(_, _, _) => n
    case Erase(_) => n - 1
    case Clear => 0
  }

  predicate LegalRun(n: nat, ops: seq<Op>)
    decreases |ops|
  {
    ops == [] || (Legal(n, ops[0]) && LegalRun(SizeAfter(n, ops[0]), ops[1..]))
  }

  /** The operation on a list. */
  function Apply(list: seq<Option<int>>, op: Op): (r: seq<Option<int>>)
    requires Legal(|list|, op)
    ensures |r| == SizeAfter(|list|, op)
  {
    match op
    case Insert(i, v, _) => list[..i] + [v] + list[i..]
    case Set(i, v, _) => list[i := v]
    case Erase(i) => list[..i] + list[i + 1..]
    case Clear => []
  }

  function ApplyAll(list: seq<Option<int>>, ops: seq<Op>): seq<Option<int>>
    requires LegalRun(|list|, ops)
    decreases |ops|
  {
    if ops == [] then list else ApplyAll(Apply(list, ops[0]), ops[1..])
  }

  /** The operation on the integers underneath. */
  ghost function After(st: Store, op: Op): (r: Store)
    requires IsWidth(st.width) && st.s != [] && Legal(|st.s| - 1, op)
    ensures IsWidth(r.width) && |r.s| == SizeAfter(|st.s| - 1, op) + 1
  {
    match op
    case Insert(i, v, seed) => InsertedStore(st, i, v, seed)
    case Set(i, v, seed) => SetStore(st, i, v, seed)
    case Erase(i) => ErasedStore(st, i)
    case Clear => Store(0, [0])
  }

  /** Does the operation store 2^31 - 1 with a null value that does not need 64 bits? */
  ghost predicate Costs(st: Store, op: Op)
    requires IsWidth(st.width) && st.s != [] && Legal(|st.s| - 1, op)
  {
    (op.Insert? || op.Set?) && Losing(st, op.v, op.seed)
  }

  function Head(ops: seq<Op>): Option<Op> {
    if ops == [] then None else Some(ops[0])
  }

  /** Does some operation of the run? */
  ghost predicate CostsRun(st: Store, ops: seq<Op>)
    requires IsWidth(st.width) && st.s != [] && LegalRun(|st.s| - 1, ops)
    decreases |ops|
  {
    match Head(ops)
    case None => false
    case Some(op) => Costs(st, op) || CostsRun(After(st, op), ops[1..])
  }

  /** The invariant on the null value holds before and after every operation. */
  ghost predicate OkThroughout(st: Store, ops: seq<Op>)
    requires IsWidth(st.width) && st.s != [] && LegalRun(|st.s| - 1, ops)
    decreases |ops|
  {
    match Head(ops)
    case None => NullOk(st)
    case Some(op) => NullOk(st) && OkThroughout(After(st, op), ops[1..])
  }

  /** A run that never stores 2^31 - 1 costs nothing. */
  lemma {:induction false} HarmlessRun(st: Store, ops: seq<Op>)
    requires IsWidth(st.width) && st.s != [] && LegalRun(|st.s| - 1, ops)
    requires forall k :: 0 <= k < |ops| && (ops[k].Insert? || ops[k].Set?) ==> ops[k].v != Some(UBound(32))
    ensures !CostsRun(st, ops)
    decreases |ops|
  {
    if ops != [] {
      HarmlessRun(After(st, ops[0]), ops[1..]);
    }
  }

  /** The search of an operation, if it makes one, starts at an address. */
  predicate AtAddress(op: Op) {
    op.Insert? || op.Set? ==> 0 <= op.seed < ADDRESSES
  }

  lemma AddressCosts(st: Store, op: Op)
    requires IsWidth(st.width) && 0 < |st.s| <= MAX_SIZE && Legal(|st.s| - 1, op) && AtAddress(op)
    ensures !Costs(st, op)
  {
    if op.Insert? || op.Set? {
      NothingLost(st, op.v, op.seed);
    }
  }

  /** A run whose searches start at addresses costs nothing, whatever it stores. */
  lemma {:induction false} AddressRun(st: Store, ops: seq<Op>)
    requires IsWidth(st.width) && 0 < |st.s| <= MAX_SIZE && LegalRun(|st.s| - 1, ops)
    requires forall k :: 0 <= k < |ops| ==> AtAddress(ops[k])
    ensures !CostsRun(st, ops)
    decreases |ops|
  {
    if ops != [] {
      AddressCosts(st, ops[0]);
      AddressRun(After(st, ops[0]), ops[1..]);
    }
  }

  // ---- Reading back ----

  /** Does the operation store a number that reads back as null? */
  predicate Misreads(st: Store, op: Op)
    requires IsWidth(st.width) && st.s != []
  {
    (op.Insert? || op.Set?) && MisreadOption(st, op.v)
  }

  ghost predicate MisreadsRun(st: Store, ops: seq<Op>)
    requires IsWidth(st.width) && st.s != [] && LegalRun(|st.s| - 1, ops)
    decreases |ops|
  {
    match Head(ops)
    case None => false
    case Some(op) => Misreads(st, op) || MisreadsRun(After(st, op), ops[1..])
  }

  /** Before and after every operation the store reads as the list does. */
  ghost predicate ReadsThroughout(st: Store, list: seq<Option<int>>, ops: seq<Op>)
    requires IsWidth(st.width) && |st.s| == |list| + 1 && LegalRun(|list|, ops)
    decreases |ops|
  {
    match Head(ops)
    case None => Values(st.s) == list
    case Some(op) => Values(st.s) == list && ReadsThroughout(After(st, op), Apply(list, op), ops[1..])
  }

  /** As long as the rule on the null value holds, nothing is misread. */
  lemma {:induction false} RuleReads(st: Store, ops: seq<Op>)
    requires IsWidth(st.width) && st.s != [] && LegalRun(|st.s| - 1, ops) && OkThroughout(st, ops)
    ensures !MisreadsRun(st, ops)
    decreases |ops|
  {
    if ops != [] {
      Widths(st.width);
      RuleReads(After(st, ops[0]), ops[1..]);
    }
  }

  /**
   * A run that loses a value, with a search that starts where a 32-bit address lies once its sign is extended:
   * 2^31 - 1 is stored with 2^31 - 5 for null, then 2^31 - 5 is stored, and reads back as null.
   */
  lemma LosingRun()
    ensures var first, seed := UBound(32), -0x8000_0000;
            var one, two := Insert(0, Some(first), seed), Insert(0, Some(LOW_NULL), seed);
            && LegalRun(0, [one, two]) && NullOk(Store(0, [0])) && Costs(Store(0, [0]), one)
            && MisreadsRun(Store(0, [0]), [one, two])
            && After(After(Store(0, [0]), one), two) == Store(32, [LOW_NULL, LOW_NULL, first])
            && Values([LOW_NULL, LOW_NULL, first]) == [None, Some(first)]
            && ApplyAll([], [one, two]) == [Some(LOW_NULL), Some(first)]
  {
    var first, seed := UBound(32), -0x8000_0000;
    var one, two := Insert(0, Some(first), seed), Insert(0, Some(LOW_NULL), seed);
    Lost();
    Widths(32);
    assert [one, two][1..] == [two] && [two][1..] == [];
    assert Inserted([LOW_NULL, first], 0, LOW_NULL) == [LOW_NULL, LOW_NULL, first];
    assert Apply([], one) == [Some(first)];
    assert ApplyAll([Some(first)], [two]) == [Some(LOW_NULL), Some(first)];
  }

  /** From any state the list reads back after the operation exactly if the operation is not misread. */
  method Step(a: IntNullArray, op: Op)
    requires a.Valid() && Legal(a.arr.size - 1, op)
    modifies a.arr
    ensures a.Valid() && |old(a.arr.Contents())| == old(a.arr.size)
    ensures a.arr.size == SizeAfter(old(a.arr.size) - 1, op) + 1
    ensures a.Under() == After(old(a.Under()), op)
    ensures Values(a.arr.Contents()) == Apply(old(Values(a.arr.Contents())), op) <==> !Misreads(old(a.Under()), op)
    ensures old(NullOk(a.Under())) ==> (NullOk(a.Under()) <==> !Costs(old(a.Under()), op))
  {
    a.Facts();
    match op
    case Insert(i, v, seed) =>
      InsertedAt(Values(a.arr.Contents()), i, v, Shown(a.Under(), v));
      a.Insert(i, v, seed);
    case Set(i, v, seed) =>
      WrittenAt(Values(a.arr.Contents()), i, v, Shown(a.Under(), v));
      a.Set(i, v, seed);
    case Erase(i) => a.Erase(i);
    case Clear => a.Clear();
  }

  lemma WrittenAt(list: seq<Option<int>>, i: nat, v: Option<int>, w: Option<int>)
    requires i < |list|
    ensures list[i := w] == list[i := v] <==> w == v
  {
    assert list[i := w][i] == w && list[i := v][i] == v;
  }

  lemma InsertedAt(list: seq<Option<int>>, i: nat, v: Option<int>, w: Option<int>)
    requires i <= |list|
    ensures list[..i] + [w] + list[i..] == list[..i] + [v] + list[i..] <==> w == v
  {
    assert (list[..i] + [w] + list[i..])[i] == w;
    assert (list[..i] + [v] + list[i..])[i] == v;
  }

  /** What a run from `st` to `st'` keeps and shows. */
  ghost predicate Ran(st: Store, list: seq<Option<int>>, ops: seq<Op>, st': Store)
    requires IsWidth(st.width) && |st.s| == |list| + 1 && LegalRun(|list|, ops) && st'.s != []
  {
    match st
    case Store(_, s) =>
      && (Values(s) == list ==> (ReadsThroughout(st, list, ops) <==> !MisreadsRun(st, ops)))
      && (ReadsThroughout(st, list, ops) ==> Values(st'.s) == ApplyAll(list, ops))
      && (NullOk(st) ==> (OkThroughout(st, ops) <==> !CostsRun(st, ops)))
      && (OkThroughout(st, ops) ==> NullOk(st'))
  }

  lemma {:induction false} RanMore(st: Store, list: seq<Option<int>>, ops: seq<Op>, next: Store, st': Store)
    requires ops != [] && IsWidth(st.width) && |st.s| == |list| + 1 && LegalRun(|list|, ops) && st'.s != []
    requires next == After(st, ops[0])
    requires Values(next.s) == Apply(Values(st.s), ops[0]) <==> !Misreads(st, ops[0])
    requires NullOk(st) ==> (NullOk(next) <==> !Costs(st, ops[0]))
    requires Ran(next, Apply(list, ops[0]), ops[1..], st')
    ensures Ran(st, list, ops, st')
  {
    ReadsMore(st, list, ops);
    RuleMore(st, ops);
  }

  lemma {:induction false} RanNone(st: Store, list: seq<Option<int>>, ops: seq<Op>)
    requires ops == [] && IsWidth(st.width) && |st.s| == |list| + 1 && LegalRun(|list|, ops)
    ensures Ran(st, list, ops, st)
  {
  }

  method RunAll(a: IntNullArray, ops: seq<Op>, ghost list: seq<Option<int>>)
    requires a.Valid() && LegalRun(a.arr.size - 1, ops) && |list| + 1 == a.arr.size
    modifies a.arr
    ensures a.Valid() && |old(a.arr.Contents())| == old(a.arr.size) && |a.arr.Contents()| == a.arr.size
    ensures Ran(old(a.Under()), list, ops, a.Under())
    decreases |ops|
  {
    a.Facts();
    ghost var st := a.Under();
    if ops == [] {
      RanNone(st, list, ops);
    } else {
      Step(a, ops[0]);
      ghost var next := a.Under();
      RunAll(a, ops[1..], Apply(list, ops[0]));
      RanMore(st, list, ops, next, a.Under());
    }
  }

  /**
   * From any state, every list of a run reads back exactly if no operation is misread. From a state in which the rule
   * on the null value holds it holds throughout exactly if no operation costs it.
   */
  method Run(a: IntNullArray, ops: seq<Op>)
    requires a.Valid() && LegalRun(a.arr.size - 1, ops)
    modifies a.arr
    ensures a.Valid() && |old(a.arr.Contents())| == old(a.arr.size)
    ensures ReadsThroughout(old(a.Under()), old(Values(a.arr.Contents())), ops) <==> !MisreadsRun(old(a.Under()), ops)
    ensures !MisreadsRun(old(a.Under()), ops) ==>
              Values(a.arr.Contents()) == ApplyAll(old(Values(a.arr.Contents())), ops)
    ensures old(NullOk(a.Under())) ==> (OkThroughout(old(a.Under()), ops) <==> !CostsRun(old(a.Under()), ops))
    ensures OkThroughout(old(a.Under()), ops) ==> NullOk(a.Under())
  {
    a.Facts();
    RunAll(a, ops, Values(a.arr.Contents()));
  }

  lemma {:induction false} ReadsMore(st: Store, list: seq<Option<int>>, ops: seq<Op>)
    requires ops != [] && IsWidth(st.width) && |st.s| == |list| + 1 && LegalRun(|list|, ops)
    requires Values(After(st, ops[0]).s) == Apply(Values(st.s), ops[0]) <==> !Misreads(st, ops[0])
    requires var next, rest := After(st, ops[0]), Apply(list, ops[0]);
             Values(next.s) == rest ==>
               (ReadsThroughout(next, rest, ops[1..]) <==> !MisreadsRun(next, ops[1..]))
    ensures Values(st.s) == list ==> (ReadsThroughout(st, list, ops) <==> !MisreadsRun(st, ops))
  {
    var next, rest := After(st, ops[0]), Apply(list, ops[0]);
    if Values(st.s) == list {
      if Misreads(st, ops[0]) {
        ReadsNow(next, rest, ops[1..]);
        assert !ReadsThroughout(next, rest, ops[1..]);
      } else {
        assert Values(next.s) == rest;
      }
    }
  }

  lemma {:induction false} ReadsNow(st: Store, list: seq<Option<int>>, ops: seq<Op>)
    requires IsWidth(st.width) && |st.s| == |list| + 1 && LegalRun(|list|, ops)
    ensures ReadsThroughout(st, list, ops) ==> Values(st.s) == list
  {
  }

  lemma {:induction false} RuleMore(st: Store, ops: seq<Op>)
    requires ops != [] && IsWidth(st.width) && st.s != [] && LegalRun(|st.s| - 1, ops)
    requires NullOk(st) ==> (NullOk(After(st, ops[0])) <==> !Costs(st, ops[0]))
    requires NullOk(After(st, ops[0])) ==>
               (OkThroughout(After(st, ops[0]), ops[1..]) <==> !CostsRun(After(st, ops[0]), ops[1..]))
    ensures NullOk(st) ==> (OkThroughout(st, ops) <==> !CostsRun(st, ops))
  {
  }

  /** When searches start at addresses, every element reads back as it was written, whatever is stored. */
  method RunAtAddresses(a: IntNullArray, ops: seq<Op>)
    requires a.Valid() && LegalRun(a.arr.size - 1, ops) && NullOk(a.Under())
    requires forall k :: 0 <= k < |ops| ==> AtAddress(ops[k])
    modifies a.arr
    ensures a.Valid() && |old(a.arr.Contents())| == old(a.arr.size)
    ensures NullOk(a.Under()) && Values(a.arr.Contents()) == ApplyAll(old(Values(a.arr.Contents())), ops)
  {
    a.Facts();
    ghost var st := a.Under();
    AddressRun(st, ops);
    Run(a, ops);
    RuleReads(st, ops);
  }
}
