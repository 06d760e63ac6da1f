/** A list of optional integers kept as integers, one of which, stored in front, stands for null. */
module NullSpec {
  import opened Options
  import opened BitMemory
  import opened NullSearch

  /** Width and contents of the array underneath; the null value is element 0. */
  datatype Store = Store(width: nat, s: seq<int>)

  function AsOption(nul: int, x: int): Option<int> {
    if x == nul then None else Some(x)
  }

  /** The list a store stands for. */
  function Values(s: seq<int>): (r: seq<Option<int>>)
    requires s != []
    ensures |r| == |s| - 1
  {
    seq(|s| - 1, i requires 0 <= i < |s| - 1 => AsOption(s[0], s[i + 1]))
  }

  function Wider(w: nat, v: int): nat
    requires IsWidth(w) && IsInt64(v)
  {
    if Fits(w, v) then w else BitWidth(v)
  }

  lemma WiderOk(w: nat, v: int)
    requires IsWidth(w) && IsInt64(v)
    ensures IsWidth(Wider(w, v)) && Fits(Wider(w, v), v) && Wider(w, v) >= w
  {
    BitWidthLeast(v, w);
    BitWidthLeast(v, BitWidth(v));
  }

  ghost predicate AllFit(st: Store) {
    IsWidth(st.width) && st.s != [] && forall i :: 0 <= i < |st.s| ==> Fits(st.width, st.s[i])
  }

  /** Below width 64 the null value is the largest the width can hold. */
  ghost predicate NullOk(st: Store) {
    IsWidth(st.width) && st.s != [] && (st.width != 64 ==> st.s[0] == UBound(st.width))
  }

  /** The width that leaves room for a null value above the given one. */
  function NewWidth(v: int): nat
    requires IsInt64(v)
  {
    BitWidthLeast(v, 64);
    Widths(BitWidth(v));
    var w := BitWidth(v);
    if w < 64 && v == UBound(w) then (if w == 0 then 1 else w * 2) else w
  }

  lemma NewWidthOk(v: int)
    requires IsInt64(v)
    ensures IsWidth(NewWidth(v)) && Fits(NewWidth(v), v) && NewWidth(v) > 0
    ensures NewWidth(v) < 64 ==> v < UBound(NewWidth(v)) && BitWidth(UBound(NewWidth(v))) == NewWidth(v)
    ensures NewWidth(v) == 64 ==> BitWidth(v) == 64 || v == UBound(32)
  {
    BitWidthLeast(v, 64);
    BitWidthLeast(v, BitWidth(v));
    Widths(BitWidth(v));
    Widths(NewWidth(v));
  }

  /** No smaller width holds the value and a null value above it. */
  lemma NewWidthLeast(v: int, w: nat)
    requires IsInt64(v) && IsWidth(w)
    ensures w < NewWidth(v) ==> !Fits(w, v) || v == UBound(w)
    ensures w >= NewWidth(v) && w < 64 ==> Fits(w, v) && v < UBound(w)
  {
    BitWidthLeast(v, w);
    BitWidthLeast(v, 64);
    Widths(w);
    Widths(BitWidth(v));
    Widths(NewWidth(v));
  }

  /** Does a value collide with the null value, or force a width at which it would? */
  predicate Collides(st: Store, v: int)
    requires IsWidth(st.width) && st.s != []
  {
    if st.width == 64 then v == st.s[0] else v < LBound(st.width) || v >= UBound(st.width)
  }

  /** Is a free null value searched for? */
  predicate Searches(st: Store, v: int)
    requires IsWidth(st.width) && st.s != [] && IsInt64(v)
  {
    Collides(st, v) && (st.width == 64 || NewWidth(v) == 64)
  }

  /** The null value after a collision; c is what the search gives. */
  function NewNull(st: Store, v: int, c: int): int
    requires IsWidth(st.width) && st.s != [] && IsInt64(v)
  {
    NewWidthOk(v);
    if Searches(st, v) then c else UBound(NewWidth(v))
  }

  /** What the search may give: neither the value that comes nor one that is stored. The present null value will do. */
  predicate Usable(s: seq<int>, v: int, c: int)
    requires s != []
  {
    c != v && (c == s[0] || c !in s[1..])
  }

  /** What the search gives from its k-th probe on: the first candidate that is usable. */
  function ChosenFrom(s: seq<int>, v: int, seed: int, k: nat): (c: int)
    requires s != [] && k > 0
    ensures IsInt64(c)
    decreases |s| + 3 - k
  {
    if k > |s| + 1 || Usable(s, v, Candidate(seed, k)) then Candidate(seed, k) else ChosenFrom(s, v, seed, k + 1)
  }

  /** choose_random_null, started from a seed. */
  function Chosen(s: seq<int>, v: int, seed: int): (c: int)
    requires s != []
    ensures IsInt64(c)
  {
    ChosenFrom(s, v, seed, 1)
  }

  /** Nulls among the first n elements replaced. */
  function ReplacedTo(s: seq<int>, nul: int, n: nat): (r: seq<int>)
    requires s != []
    ensures |r| == |s|
  {
    seq(|s|, i requires 0 <= i < |s| => if i == 0 || (i < n && s[i] == s[0]) then nul else s[i])
  }

  /** avoid_null_collision */
  function Avoided(st: Store, v: int, c: int): (r: Store)
    requires IsWidth(st.width) && st.s != [] && IsInt64(v) && IsInt64(c)
    ensures |r.s| == |st.s|
  {
    if !Collides(st, v) then st
    else
      NewWidthOk(v);
      Widths(NewWidth(v));
      Store(Wider(st.width, NewNull(st, v, c)), ReplacedTo(st.s, NewNull(st, v, c), |st.s|))
  }

  /** Replacing the null value by one that is not stored changes no value. */
  lemma ReplacedValues(s: seq<int>, nul: int)
    requires s != [] && (nul == s[0] || nul !in s[1..])
    ensures Values(ReplacedTo(s, nul, |s|)) == Values(s)
  {
    var l, r := Values(ReplacedTo(s, nul, |s|)), Values(s);
    forall i | 0 <= i < |r| ensures l[i] == r[i] {
      assert s[1..][i] == s[i + 1];
    }
  }

  /** If a null value is searched for, c can be what the search gives. */
  ghost predicate Found(st: Store, v: int, c: int)
    requires IsWidth(st.width) && st.s != [] && IsInt64(v)
  {
    Searches(st, v) ==> Usable(st.s, v, c)
  }

  /** What is stored is below the null value of a wider array. */
  lemma NewNullUnused(st: Store, v: int, c: int)
    requires AllFit(st) && IsInt64(v) && Collides(st, v) && Found(st, v, c)
    ensures NewNull(st, v, c) != v && (NewNull(st, v, c) == st.s[0] || NewNull(st, v, c) !in st.s[1..])
  {
    NewWidthOk(v);
    if !Searches(st, v) {
      BitWidthLeast(v, st.width);
      Widths(st.width);
      Widths(NewWidth(v));
      var nul := UBound(NewWidth(v));
      forall i | 0 <= i < |st.s[1..]| ensures st.s[1..][i] != nul {
        assert st.s[1..][i] == st.s[i + 1];
      }
    }
  }

  /** A value that is the null value of an array in which that is not the largest of the width. */
  predicate Misread(st: Store, v: int)
    requires IsWidth(st.width) && st.s != []
  {
    st.width < 64 && v == st.s[0] && v != UBound(st.width)
  }

  /** After avoid_null_collision the list is the same, and the value is not null unless it was misread before. */
  lemma AvoidedReads(st: Store, v: int, c: int)
    requires AllFit(st) && IsInt64(v) && IsInt64(c) && Found(st, v, c)
    ensures Values(Avoided(st, v, c).s) == Values(st.s)
    ensures Avoided(st, v, c).s[0] == v <==> Misread(st, v)
  {
    Widths(st.width);
    if Collides(st, v) {
      NewNullUnused(st, v, c);
      ReplacedValues(st.s, NewNull(st, v, c));
      assert st.width < 64 && v == st.s[0] ==> v == UBound(st.width);
    } else {
      assert Fits(st.width, st.s[0]);
    }
  }

  // ---- The operations ----

  ghost function Inserted(s: seq<int>, i: nat, x: int): seq<int>
    requires i < |s|
  {
    s[..i + 1] + [x] + s[i + 1..]
  }

  lemma InsertedValues(s: seq<int>, i: nat, x: int)
    requires i < |s|
    ensures Values(Inserted(s, i, x)) == Values(s)[..i] + [AsOption(s[0], x)] + Values(s)[i..]
  {
  }

  lemma SetValues(s: seq<int>, i: nat, x: int)
    requires i + 1 < |s|
    ensures Values(s[i + 1 := x]) == Values(s)[i := AsOption(s[0], x)]
  {
  }

  lemma ErasedValues(s: seq<int>, i: nat)
    requires i + 1 < |s|
    ensures Values(s[..i + 1] + s[i + 2..]) == Values(s)[..i] + Values(s)[i + 1..]
  {
  }

  /** A value stored after avoid_null_collision reads back unless it is misread; everything else reads back always. */
  lemma SetReads(st: Store, v: int, c: int, i: nat)
    requires AllFit(st) && IsInt64(v) && IsInt64(c) && Found(st, v, c) && i + 1 < |st.s|
    ensures Values(Avoided(st, v, c).s[i + 1 := v]) == Values(st.s)[i := if Misread(st, v) then None else Some(v)]
  {
    AvoidedReads(st, v, c);
    SetValues(Avoided(st, v, c).s, i, v);
  }

  lemma InsertReads(st: Store, v: int, c: int, i: nat)
    requires AllFit(st) && IsInt64(v) && IsInt64(c) && Found(st, v, c) && i < |st.s|
    ensures Values(Inserted(Avoided(st, v, c).s, i, v))
         == Values(st.s)[..i] + [if Misread(st, v) then None else Some(v)] + Values(st.s)[i..]
  {
    AvoidedReads(st, v, c);
    InsertedValues(Avoided(st, v, c).s, i, v);
  }

  /**
   * The case in which the invariant is lost: the step to width 64 is made for 2^31 - 1, but neither it nor the null
   * value needs it.
   */
  predicate Loses(st: Store, v: int, c: int)
    requires IsWidth(st.width) && st.s != [] && IsInt64(v) && IsInt64(c)
  {
    st.width < 64 && v == UBound(32) && BitWidth(c) <= 32
  }

  ghost predicate Losing(st: Store, v: Option<int>, seed: int)
    requires IsWidth(st.width) && st.s != [] && (v.Some? ==> IsInt64(v.value))
  {
    v.Some? && Loses(st, v.value, Chosen(st.s, v.value, seed))
  }

  /** Width and null value when a value is stored after avoid_null_collision. */
  function StoredAs(st: Store, v: int, c: int): (nat, int)
    requires IsWidth(st.width) && st.s != [] && IsInt64(v) && IsInt64(c)
  {
    NewWidthOk(v);
    Widths(NewWidth(v));
    if !Collides(st, v) then (Wider(st.width, v), st.s[0])
    else
      WiderOk(st.width, NewNull(st, v, c));
      (Wider(Wider(st.width, NewNull(st, v, c)), v), NewNull(st, v, c))
  }

  /** Store a value or null before position i. */
  ghost function InsertedStore(st: Store, i: nat, v: Option<int>, seed: int): (r: Store)
    requires IsWidth(st.width) && i < |st.s| && (v.Some? ==> IsInt64(v.value))
    ensures IsWidth(r.width) && |r.s| == |st.s| + 1
  {
    if v.None? then Store(st.width, Inserted(st.s, i, st.s[0]))
    else
      var c := Chosen(st.s, v.value, seed);
      StoredIsAvoided(st, v.value, c);
      WiderOk(Avoided(st, v.value, c).width, v.value);
      Store(Wider(Avoided(st, v.value, c).width, v.value), Inserted(Avoided(st, v.value, c).s, i, v.value))
  }

  /** Store a value or null at position i. */
  ghost function SetStore(st: Store, i: nat, v: Option<int>, seed: int): (r: Store)
    requires IsWidth(st.width) && i + 1 < |st.s| && (v.Some? ==> IsInt64(v.value))
    ensures IsWidth(r.width) && |r.s| == |st.s|
  {
    if v.None? then Store(st.width, st.s[i + 1 := st.s[0]])
    else
      var c := Chosen(st.s, v.value, seed);
      StoredIsAvoided(st, v.value, c);
      WiderOk(Avoided(st, v.value, c).width, v.value);
      Store(Wider(Avoided(st, v.value, c).width, v.value), Avoided(st, v.value, c).s[i + 1 := v.value])
  }

  ghost function ErasedStore(st: Store, i: nat): (r: Store)
    requires i + 1 < |st.s|
    ensures |r.s| == |st.s| - 1
  {
    Store(st.width, st.s[..i + 1] + st.s[i + 2..])
  }

  lemma StoredIsAvoided(st: Store, v: int, c: int)
    requires IsWidth(st.width) && st.s != [] && IsInt64(v) && IsInt64(c)
    ensures IsWidth(Avoided(st, v, c).width)
    ensures StoredAs(st, v, c) == (Wider(Avoided(st, v, c).width, v), Avoided(st, v, c).s[0])
  {
    NewWidthOk(v);
    Widths(NewWidth(v));
    WiderOk(st.width, NewNull(st, v, c));
  }

  lemma QuietStore(st: Store, v: int, c: int)
    requires NullOk(st) && AllFit(st) && IsInt64(v) && IsInt64(c) && !Searches(st, v)
    ensures NullOk(Store(StoredAs(st, v, c).0, [StoredAs(st, v, c).1])) && !Loses(st, v, c)
  {
    NewWidthOk(v);
    Widths(st.width);
    Widths(NewWidth(v));
    BitWidthLeast(v, st.width);
    WiderOk(st.width, NewNull(st, v, c));
  }

  lemma SearchedStore(st: Store, v: int, c: int)
    requires NullOk(st) && AllFit(st) && IsInt64(v) && IsInt64(c) && Searches(st, v) && Usable(st.s, v, c)
    ensures NullOk(Store(StoredAs(st, v, c).0, [StoredAs(st, v, c).1])) <==> !Loses(st, v, c)
  {
    NewWidthOk(v);
    WiderOk(st.width, c);
    WiderOk(Wider(st.width, c), v);
    BitWidthLeast(c, st.width);
    BitWidthLeast(v, st.width);
    BitWidthLeast(v, Wider(st.width, c));
    BitWidthLeast(c, 32);
    Widths(st.width);
    Widths(BitWidth(c));
    Widths(BitWidth(v));
  }

  /** The invariant survives storing a value exactly if that case does not arise. */
  lemma NullSurvives(st: Store, v: int, c: int)
    requires NullOk(st) && AllFit(st) && IsInt64(v) && IsInt64(c) && Found(st, v, c)
    ensures NullOk(Store(StoredAs(st, v, c).0, [StoredAs(st, v, c).1])) <==> !Loses(st, v, c)
  {
    if Searches(st, v) {
      SearchedStore(st, v, c);
    } else {
      QuietStore(st, v, c);
    }
  }

  /** Would a value be read back as null if it were stored now? */
  predicate MisreadOption(st: Store, v: Option<int>)
    requires IsWidth(st.width) && st.s != []
  {
    v.Some? && Misread(st, v.value)
  }

  /** What a list shows for a value that is stored. */
  function Shown(st: Store, v: Option<int>): Option<int>
    requires IsWidth(st.width) && st.s != []
  {
    if MisreadOption(st, v) then None else v
  }

  lemma InsertedOk(st: Store, i: nat, v: Option<int>, seed: int)
    requires AllFit(st) && i < |st.s| && (v.Some? ==> IsInt64(v.value))
    requires v.Some? ==> Found(st, v.value, Chosen(st.s, v.value, seed))
    ensures var r := InsertedStore(st, i, v, seed);
            && Values(r.s) == Values(st.s)[..i] + [Shown(st, v)] + Values(st.s)[i..]
            && (NullOk(st) ==> (NullOk(r) <==> !Losing(st, v, seed)))
  {
    if v.None? {
      InsertedValues(st.s, i, st.s[0]);
    } else {
      var c := Chosen(st.s, v.value, seed);
      StoredIsAvoided(st, v.value, c);
      InsertReads(st, v.value, c, i);
      if NullOk(st) {
        NullSurvives(st, v.value, c);
      }
    }
  }

  lemma SetOk(st: Store, i: nat, v: Option<int>, seed: int)
    requires AllFit(st) && i + 1 < |st.s| && (v.Some? ==> IsInt64(v.value))
    requires v.Some? ==> Found(st, v.value, Chosen(st.s, v.value, seed))
    ensures var r := SetStore(st, i, v, seed);
            && Values(r.s) == Values(st.s)[i := Shown(st, v)]
            && (NullOk(st) ==> (NullOk(r) <==> !Losing(st, v, seed)))
  {
    if v.None? {
      SetValues(st.s, i, st.s[0]);
    } else {
      var c := Chosen(st.s, v.value, seed);
      StoredIsAvoided(st, v.value, c);
      SetReads(st, v.value, c, i);
      if NullOk(st) {
        NullSurvives(st, v.value, c);
      }
    }
  }

  // ---- Where the search starts ----

  /** The search ends with a usable candidate, wherever it starts. */
  lemma {:induction false} ChosenUsable(s: seq<int>, v: int, seed: int, k: nat)
    requires s != [] && 0 < k <= |s| + 1 && |s| + 1 < WORD && FirstCandidates(seed, k - 1) <= {v} + Elems(s[1..])
    ensures Usable(s, v, ChosenFrom(s, v, seed, k))
    decreases |s| + 1 - k
  {
    var c := Candidate(seed, k);
    if !Usable(s, v, c) {
      ElemsOk(s[1..], c);
      FewRefused(seed, k, v, s[1..]);
      ChosenUsable(s, v, seed, k + 1);
    }
  }

  /** Addresses of user code on a 64-bit machine lie below this. */
  const ADDRESSES: nat := 0x0200_0000_0000_0000

  /** The most elements an array can have. */
  const MAX_SIZE: nat := 0xff_ffff

  /** A search that starts at an address gives a null value that needs 64 bits. */
  lemma {:induction false} ChosenLarge(s: seq<int>, v: int, seed: int, k: nat)
    requires s != [] && |s| <= MAX_SIZE && 0 <= seed < ADDRESSES && 0 < k <= |s| + 2
    ensures ChosenFrom(s, v, seed, k) > UBound(32)
    decreases |s| + 3 - k
  {
    CandidateStraight(seed, k);
    if k <= |s| + 1 && !Usable(s, v, Candidate(seed, k)) {
      ChosenLarge(s, v, seed, k + 1);
    }
  }

  /** So nothing is lost by a search that starts at an address. */
  lemma NothingLost(st: Store, v: Option<int>, seed: int)
    requires IsWidth(st.width) && 0 < |st.s| <= MAX_SIZE && (v.Some? ==> IsInt64(v.value)) && 0 <= seed < ADDRESSES
    ensures !Losing(st, v, seed)
  {
    if v.Some? {
      ChosenLarge(st.s, v.value, seed, 1);
      BitWidthLeast(Chosen(st.s, v.value, seed), 32);
    }
  }

  /** A small number that could be the null value when 2^31 - 1 is stored. */
  lemma {:induction false} SmallUsable(st: Store) returns (c: int)
    requires IsWidth(st.width) && 0 < |st.s| <= MAX_SIZE
    ensures IsInt64(c) && Usable(st.s, UBound(32), c) && BitWidth(c) <= 32
  {
    c := SmallUnused(st.s);
    forall i | 0 <= i < |st.s[1..]| ensures st.s[1..][i] != c {
      assert st.s[1..][i] == st.s[i + 1];
    }
    BitWidthLeast(c, 32);
  }

  /** There is a start from which storing 2^31 - 1 at a width below 64 costs the rule. */
  lemma {:induction false} LossPossible(st: Store) returns (seed: int)
    requires IsWidth(st.width) && st.width < 64 && 0 < |st.s| <= MAX_SIZE
    ensures IsInt64(seed) && Losing(st, Some(UBound(32)), seed)
  {
    var c := SmallUsable(st);
    FirstCandidate(c);
    seed := Wrap(c - STEP);
    assert ChosenFrom(st.s, UBound(32), seed, 1) == c;
  }

  ghost predicate RuleAfterInsert(st: Store, i: nat, v: int, seed: int)
    requires IsWidth(st.width) && i < |st.s| && IsInt64(v)
  {
    NullOk(InsertedStore(st, i, Some(v), seed))
  }

  lemma {:induction false} InsertFrom(st: Store, i: nat, v: int, seed: int)
    requires NullOk(st) && AllFit(st) && i < |st.s| <= MAX_SIZE && IsInt64(v)
    ensures RuleAfterInsert(st, i, v, seed) <==> !Losing(st, Some(v), seed)
  {
    ChosenUsable(st.s, v, seed, 1);
    InsertedOk(st, i, Some(v), seed);
  }

  /**
   * What a caller can tell: the rule survives wherever the search starts exactly if 2^31 - 1 is not stored below width
   * 64.
   */
  lemma {:induction false} SafeAnywhere(st: Store, i: nat, v: int)
    requires NullOk(st) && AllFit(st) && i < |st.s| <= MAX_SIZE && IsInt64(v)
    ensures (forall seed :: IsInt64(seed) ==> RuleAfterInsert(st, i, v, seed)) <==> st.width == 64 || v != UBound(32)
  {
    Widths(st.width);
    if st.width < 64 && v == UBound(32) {
      var seed := LossPossible(st);
      InsertFrom(st, i, v, seed);
    } else {
      forall seed | IsInt64(seed) ensures RuleAfterInsert(st, i, v, seed) {
        InsertFrom(st, i, v, seed);
      }
    }
  }

  ghost predicate RuleAfterSet(st: Store, i: nat, v: int, seed: int)
    requires IsWidth(st.width) && i + 1 < |st.s| && IsInt64(v)
  {
    NullOk(SetStore(st, i, Some(v), seed))
  }

  lemma {:induction false} SetFrom(st: Store, i: nat, v: int, seed: int)
    requires NullOk(st) && AllFit(st) && i + 1 < |st.s| <= MAX_SIZE && IsInt64(v)
    ensures RuleAfterSet(st, i, v, seed) <==> !Losing(st, Some(v), seed)
  {
    ChosenUsable(st.s, v, seed, 1);
    SetOk(st, i, Some(v), seed);
  }

  /** The same for overwriting. */
  lemma {:induction false} SafeToSet(st: Store, i: nat, v: int)
    requires NullOk(st) && AllFit(st) && i + 1 < |st.s| <= MAX_SIZE && IsInt64(v)
    ensures (forall seed :: IsInt64(seed) ==> RuleAfterSet(st, i, v, seed)) <==> st.width == 64 || v != UBound(32)
  {
    Widths(st.width);
    if st.width < 64 && v == UBound(32) {
      var seed := LossPossible(st);
      SetFrom(st, i, v, seed);
    } else {
      forall seed | IsInt64(seed) ensures RuleAfterSet(st, i, v, seed) {
        SetFrom(st, i, v, seed);
      }
    }
  }

  /** A null value that the search finds from a 32-bit address with its top bit set, extended by its sign. */
  const LOW_NULL: int := 0x7fff_fffb

  /** What then goes wrong: a value equal to the null value is stored without notice and reads back as null. */
  lemma Lost()
    ensures var empty, first, seed := Store(0, [0]), UBound(32), -0x8000_0000;
            && NullOk(empty) && Chosen(empty.s, first, seed) == LOW_NULL && Losing(empty, Some(first), seed)
            && InsertedStore(empty, 0, Some(first), seed) == Store(32, [LOW_NULL, first])
            && Misread(Store(32, [LOW_NULL, first]), LOW_NULL)
  {
    var empty, first, seed := Store(0, [0]), UBound(32), -0x8000_0000;
    Widths(0);
    Widths(32);
    Widths(64);
    assert Candidate(seed, 0) == seed;
    assert Candidate(seed, 1) == LOW_NULL;
    assert Chosen(empty.s, first, seed) == LOW_NULL;
    assert Avoided(empty, first, LOW_NULL).s == [LOW_NULL];
    assert Inserted([LOW_NULL], 0, first) == [LOW_NULL, first];
  }
}
