/** Size-indexed circular lists of free blocks (SlabAlloc's m_block_map and the links inside FreeBlock). */
module FreeLists {
  import opened Options

  /** A block, named by its slab and its byte offset in that slab. */
  datatype Block = Block(slab: nat, off: nat)

  /** Neighbours in a circular list of n entries. */
  function After(i: nat, n: nat): nat
    requires i < n
  {
    if i + 1 < n then i + 1 else 0
  }

  function Before(i: nat, n: nat): nat
    requires i < n
  {
    if i > 0 then i - 1 else n - 1
  }

  /** The links of the blocks in `l` form one ring that runs through `l` in order. */
  ghost predicate Ring(l: seq<Block>, next: map<Block, Block>, prev: map<Block, Block>) {
    && (forall b :: b in l ==> b in next && b in prev)
    && (forall i {:trigger next[l[i]]} :: 0 <= i < |l| ==> next[l[i]] == l[After(i, |l|)])
    && (forall i {:trigger prev[l[i]]} :: 0 <= i < |l| ==> prev[l[i]] == l[Before(i, |l|)])
  }

  ghost predicate Distinct(l: seq<Block>) {
    forall i, j :: 0 <= i < j < |l| ==> l[i] != l[j]
  }

  /** No block is in two lists. */
  ghost predicate Apart(lists: map<int, seq<Block>>) {
    forall s, t, b :: s in lists && t in lists && s != t && b in lists[s] ==> b !in lists[t]
  }

  function WithoutAt(l: seq<Block>, i: nat): seq<Block>
    requires i < |l|
  {
    l[..i] + l[i + 1..]
  }

  lemma RingPush(l: seq<Block>, e: Block, next: map<Block, Block>, prev: map<Block, Block>)
    requires l != [] && Ring(l, next, prev) && Distinct(l) && e !in l
    ensures Ring([e] + l, next[e := l[0]][l[|l| - 1] := e], prev[e := l[|l| - 1]][l[0] := e])
    ensures Distinct([e] + l)
  {
  }

  ghost function NextWithout(e: Block, next: map<Block, Block>, prev: map<Block, Block>): map<Block, Block>
    requires e in next && e in prev
  {
    next[prev[e] := next[e]] - {e}
  }

  ghost function PrevWithout(e: Block, next: map<Block, Block>, prev: map<Block, Block>): map<Block, Block>
    requires e in next && e in prev
  {
    prev[next[e] := prev[e]] - {e}
  }

  /** Entry k of the shortened list, and where it was before. */
  lemma EntryWithout(l: seq<Block>, i: nat, k: nat)
    requires i < |l| && k < |l| - 1
    ensures WithoutAt(l, i)[k] == l[if k < i then k else k + 1]
  {
  }

  /** Where the entry after entry k of the shortened list was before. */
  lemma AfterShortened(i: nat, k: nat, n: nat)
    requires i < n && n > 1 && k < n - 1
    ensures var k', j := if k < i then k else k + 1, After(k, n - 1);
            (if j < i then j else j + 1) == if k' == Before(i, n) then After(i, n) else After(k', n)
  {
  }

  lemma NextOfWithout(l: seq<Block>, i: nat, k: nat, next: map<Block, Block>, prev: map<Block, Block>)
    requires i < |l| && |l| > 1 && Ring(l, next, prev) && Distinct(l) && k < |l| - 1
    ensures var x := WithoutAt(l, i)[k];
            var next' := NextWithout(l[i], next, prev);
            x in next' && next'[x] == WithoutAt(l, i)[After(k, |l| - 1)]
  {
    var k' := if k < i then k else k + 1;
    EntryWithout(l, i, k);
    EntryWithout(l, i, After(k, |l| - 1));
    SameEntry(l, k', i);
    SameEntry(l, k', Before(i, |l|));
    AfterShortened(i, k, |l|);
    assert prev[l[i]] == l[Before(i, |l|)] && next[l[i]] == l[After(i, |l|)] && next[l[k']] == l[After(k', |l|)];
  }

  /** Where the entry before entry k of the shortened list was before. */
  lemma BeforeShortened(i: nat, k: nat, n: nat)
    requires i < n && n > 1 && k < n - 1
    ensures var k', j := if k < i then k else k + 1, Before(k, n - 1);
            (if j < i then j else j + 1) == if k' == After(i, n) then Before(i, n) else Before(k', n)
  {
  }

  lemma PrevOfWithout(l: seq<Block>, i: nat, k: nat, next: map<Block, Block>, prev: map<Block, Block>)
    requires i < |l| && |l| > 1 && Ring(l, next, prev) && Distinct(l) && k < |l| - 1
    ensures var x := WithoutAt(l, i)[k];
            var prev' := PrevWithout(l[i], next, prev);
            x in prev' && prev'[x] == WithoutAt(l, i)[Before(k, |l| - 1)]
  {
    var k' := if k < i then k else k + 1;
    EntryWithout(l, i, k);
    EntryWithout(l, i, Before(k, |l| - 1));
    SameEntry(l, k', i);
    SameEntry(l, k', After(i, |l|));
    BeforeShortened(i, k, |l|);
    assert prev[l[i]] == l[Before(i, |l|)] && next[l[i]] == l[After(i, |l|)] && prev[l[k']] == l[Before(k', |l|)];
  }

  lemma RingUnlink(l: seq<Block>, i: nat, next: map<Block, Block>, prev: map<Block, Block>)
    requires i < |l| && |l| > 1 && Ring(l, next, prev) && Distinct(l)
    ensures Ring(WithoutAt(l, i), NextWithout(l[i], next, prev), PrevWithout(l[i], next, prev))
    ensures Distinct(WithoutAt(l, i)) && l[i] !in WithoutAt(l, i)
  {
    forall k | 0 <= k < |l| - 1
      ensures var x, n := WithoutAt(l, i)[k], |l| - 1;
              && x in NextWithout(l[i], next, prev) && NextWithout(l[i], next, prev)[x] == WithoutAt(l, i)[After(k, n)]
              && x in PrevWithout(l[i], next, prev) && PrevWithout(l[i], next, prev)[x] == WithoutAt(l, i)[Before(k, n)]
    {
      NextOfWithout(l, i, k, next, prev);
      PrevOfWithout(l, i, k, next, prev);
    }
  }

  lemma SameEntry(l: seq<Block>, i: nat, j: nat)
    requires Distinct(l) && i < |l| && j < |l|
    ensures l[i] == l[j] <==> i == j
  {
  }

  /** Links of other rings do not matter. */
  lemma RingFrame(l: seq<Block>, next: map<Block, Block>, prev: map<Block, Block>, next': map<Block, Block>,
                  prev': map<Block, Block>)
    requires Ring(l, next, prev)
    requires forall b :: b in l ==> b in next' && b in prev' && next'[b] == next[b] && prev'[b] == prev[b]
    ensures Ring(l, next', prev')
  {
  }

  /** The heads and links represent `lists`. */
  ghost predicate Represents(heads: map<int, Block>, next: map<Block, Block>, prev: map<Block, Block>,
                             lists: map<int, seq<Block>>) {
    && heads.Keys == lists.Keys
    && (forall s :: s in lists ==> |lists[s]| > 0 && heads[s] == lists[s][0])
    && (forall s :: s in lists ==> Ring(lists[s], next, prev) && Distinct(lists[s]))
    && Apart(lists)
  }

  ghost predicate Listed(lists: map<int, seq<Block>>, b: Block) {
    exists s :: s in lists && b in lists[s]
  }

  ghost function Pushed(lists: map<int, seq<Block>>, size: int, e: Block): map<int, seq<Block>> {
    lists[size := if size in lists then [e] + lists[size] else [e]]
  }

  ghost function Removed(lists: map<int, seq<Block>>, size: int, i: nat): map<int, seq<Block>>
    requires size in lists && i < |lists[size]|
  {
    if |lists[size]| == 1 then lists - {size} else lists[size := WithoutAt(lists[size], i)]
  }

  lemma PushApart(lists: map<int, seq<Block>>, size: int, e: Block)
    requires Apart(lists) && !Listed(lists, e)
    ensures Apart(Pushed(lists, size, e))
  {
    var lists' := Pushed(lists, size, e);
    forall s, t, b | s in lists' && t in lists' && s != t && b in lists'[s] ensures b !in lists'[t] {
      if b == e {
        assert t in lists ==> e !in lists[t];
      }
    }
  }

  lemma RemoveApart(lists: map<int, seq<Block>>, size: int, i: nat)
    requires Apart(lists) && size in lists && i < |lists[size]|
    ensures Apart(Removed(lists, size, i))
  {
    var lists' := Removed(lists, size, i);
    forall s, t, b | s in lists' && t in lists' && s != t && b in lists'[s] ensures b !in lists'[t] {
      assert b in lists[s];
      assert b !in lists[t];
    }
  }

  lemma PushRepresents(heads: map<int, Block>, next: map<Block, Block>, prev: map<Block, Block>,
                       lists: map<int, seq<Block>>, size: int, e: Block)
    requires Represents(heads, next, prev, lists) && !Listed(lists, e) && size in lists
    ensures var first, last := lists[size][0], lists[size][|lists[size]| - 1];
            Represents(heads[size := e], next[e := first][last := e], prev[e := last][first := e],
                       Pushed(lists, size, e))
  {
    PushApart(lists, size, e);
    var l := lists[size];
    RingPush(l, e, next, prev);
    forall s | s in lists && s != size
      ensures Ring(lists[s], next[e := l[0]][l[|l| - 1] := e], prev[e := l[|l| - 1]][l[0] := e])
    {
      OtherRingPush(lists[s], l, e, next, prev);
    }
  }

  lemma OtherRingPush(other: seq<Block>, l: seq<Block>, e: Block, next: map<Block, Block>, prev: map<Block, Block>)
    requires Ring(other, next, prev) && l != [] && e !in other
    requires forall b :: b in other ==> b !in l
    ensures Ring(other, next[e := l[0]][l[|l| - 1] := e], prev[e := l[|l| - 1]][l[0] := e])
  {
    assert l[0] in l && l[|l| - 1] in l;
    RingFrame(other, next, prev, next[e := l[0]][l[|l| - 1] := e], prev[e := l[|l| - 1]][l[0] := e]);
  }

  lemma PushNewRepresents(heads: map<int, Block>, next: map<Block, Block>, prev: map<Block, Block>,
                          lists: map<int, seq<Block>>, size: int, e: Block)
    requires Represents(heads, next, prev, lists) && !Listed(lists, e) && size !in lists
    ensures Represents(heads[size := e], next[e := e], prev[e := e], Pushed(lists, size, e))
  {
    PushApart(lists, size, e);
    forall s | s in lists ensures Ring(lists[s], next[e := e], prev[e := e]) {
      assert e !in lists[s];
      RingFrame(lists[s], next, prev, next[e := e], prev[e := e]);
    }
  }

  lemma RemoveRepresents(heads: map<int, Block>, next: map<Block, Block>, prev: map<Block, Block>,
                         lists: map<int, seq<Block>>, size: int, i: nat)
    requires Represents(heads, next, prev, lists) && size in lists && i < |lists[size]|
    ensures var l, e := lists[size], lists[size][i];
            var heads' := if i > 0 then heads else if |l| == 1 then heads - {size} else heads[size := l[1]];
            Represents(heads', NextWithout(e, next, prev), PrevWithout(e, next, prev), Removed(lists, size, i))
  {
    var l, e := lists[size], lists[size][i];
    var next', prev' := NextWithout(e, next, prev), PrevWithout(e, next, prev);
    var lists' := Removed(lists, size, i);
    RemoveApart(lists, size, i);
    if |l| > 1 {
      RingUnlink(l, i, next, prev);
    }
    forall s | s in lists' ensures Ring(lists'[s], next', prev') && Distinct(lists'[s]) {
      if s != size {
        OtherRing(lists[s], l, i, next, prev);
      }
    }
  }

  /** Taking a block out of one ring leaves a ring without blocks in common alone. */
  lemma OtherRing(other: seq<Block>, l: seq<Block>, i: nat, next: map<Block, Block>, prev: map<Block, Block>)
    requires Ring(other, next, prev) && Ring(l, next, prev) && i < |l|
    requires forall b :: b in other ==> b !in l
    ensures Ring(other, NextWithout(l[i], next, prev), PrevWithout(l[i], next, prev))
  {
    assert prev[l[i]] == l[Before(i, |l|)] && next[l[i]] == l[After(i, |l|)];
    RingFrame(other, next, prev, NextWithout(l[i], next, prev), PrevWithout(l[i], next, prev));
  }

  lemma SomeKey(keys: set<int>)
    requires keys != {}
    ensures exists k :: k in keys
  {
    assert !(forall k :: k !in keys) by {
      assert (forall k :: k !in keys) ==> keys == {};
    }
  }

  /** No size that will do comes before the hint. */
  ghost predicate Hinted(heads: map<int, Block>, size: int, hint: Option<int>) {
    && (hint.Some? ==> hint.value in heads)
    && (forall s :: s in heads && s >= size ==> hint.Some? && s >= hint.value)
  }

  class FreeLists {
    var heads: map<int, Block>
    var next: map<Block, Block>
    var prev: map<Block, Block>
    ghost var lists: map<int, seq<Block>>

    ghost predicate Valid()
      reads this
    {
      Represents(heads, next, prev, lists)
    }

    constructor ()
      ensures Valid() && lists == map[]
    {
      heads, next, prev, lists := map[], map[], map[], map[];
    }

    method Clear()
      modifies this
      ensures Valid() && lists == map[]
    {
      heads, lists := map[], map[];
    }

    /** Put a block at the front of the list for its size. */
    method Push(e: Block, size: int)
      requires Valid() && !Listed(lists, e)
      modifies this
      ensures Valid() && lists == Pushed(old(lists), size, e)
    {
      if size in heads {
        PushRepresents(heads, next, prev, lists, size, e);
        var header := heads[size];
        assert prev[lists[size][0]] == lists[size][|lists[size]| - 1];
        heads := heads[size := e];
        next := next[e := header];
        prev := prev[e := prev[header]];
        next := next[prev[e] := e];
        prev := prev[next[e] := e];
      } else {
        PushNewRepresents(heads, next, prev, lists, size, e);
        heads := heads[size := e];
        next, prev := next[e := e], prev[e := e];
      }
      lists := Pushed(lists, size, e);
    }

    /** Take a block out of the ring it is in. */
    method Unlink(e: Block)
      requires e in next && e in prev
      modifies this`next, this`prev
      ensures next == NextWithout(e, old(next), old(prev)) && prev == PrevWithout(e, old(next), old(prev))
    {
      var n, p := next[e], prev[e];
      prev := prev[n := p];
      next := next[p := n];
      next, prev := next - {e}, prev - {e};
    }

    /** Take a block, the i-th of the list for its size, out of that list. */
    method Remove(e: Block, size: int, ghost i: nat)
      requires Valid() && size in lists && i < |lists[size]| && lists[size][i] == e
      modifies this
      ensures Valid() && lists == Removed(old(lists), size, i)
    {
      ghost var l := lists[size];
      RemoveRepresents(heads, next, prev, lists, size, i);
      assert i == 0 ==> next[l[0]] == l[After(0, |l|)];
      SameEntry(l, 0, i);
      SameEntry(l, 0, After(0, |l|));
      var header := heads[size];
      if header == e {
        header := next[e];
        if header == e {
          heads := heads - {size};
        } else {
          heads := heads[size := header];
        }
      }
      Unlink(e);
      lists := Removed(lists, size, i);
    }

    /** Take the first block of the list for `size`. */
    method Pop(size: int) returns (e: Block)
      requires Valid() && size in heads
      modifies this
      ensures Valid() && e == old(lists)[size][0] && lists == Removed(old(lists), size, 0)
    {
      ghost var l := lists[size];
      RemoveRepresents(heads, next, prev, lists, size, 0);
      assert next[l[0]] == l[After(0, |l|)];
      SameEntry(l, 0, After(0, |l|));
      e := heads[size];
      var header := next[e];
      if header == e {
        heads := heads - {size};
      } else {
        heads := heads[size := header];
      }
      Unlink(e);
      lists := Removed(lists, size, 0);
    }

    /** The smallest size not below `size` for which there is a list (an ordered map's lower_bound). */
    method Find(size: int) returns (r: Option<int>)
      ensures r.None? ==> forall s :: s in heads ==> s < size
      ensures r.Some? ==> r.value in heads && r.value >= size && forall s :: s in heads && s >= size ==> s >= r.value
      ensures Hinted(heads, size, r)
    {
      var keys: set<int> := heads.Keys;
      r := None;
      while keys != {}
        invariant forall s :: s in keys ==> s in heads
        invariant r.None? ==> forall s :: s in heads && s !in keys ==> s < size
        invariant r.Some? ==> r.value in heads && r.value >= size
        invariant r.Some? ==> forall s :: s in heads && s !in keys && s >= size ==> s >= r.value
        decreases keys
      {
        SomeKey(keys);
        var k :| k in keys;
        if k >= size && (r.None? || k < r.value) {
          r := Some(k);
        }
        keys := keys - {k};
      }
    }

    /** From `hint` on, the smallest size with room for a second block behind the request. */
    method FindLarger(hint: Option<int>, needed: int) returns (r: Option<int>)
      requires Hinted(heads, needed, hint)
      ensures r.None? ==> forall s :: s in heads ==> s < needed
      ensures r.Some? ==>
                r.value in heads && r.value >= needed && forall s :: s in heads && s >= needed ==> s >= r.value
    {
      r := hint;
      while r.Some? && r.value < needed
        invariant r.Some? ==> r.value in heads
        invariant forall s :: s in heads && s >= needed ==> r.Some? && s >= r.value
        decreases if r.Some? then needed - r.value + 1 else 0
      {
        r := Find(r.value + 1);
      }
    }
  }
}
