/** Descent-based lower bound (BPlusTree::lower_bound and subtree_first_value). */
module BpSearch {
  import opened BpNode
  import opened BpInner
  import opened BpTree

  /** Everything below `value` comes before everything that is not. A sorted sequence is partitioned by any value. */
  ghost predicate Partitioned<T>(s: seq<T>, less: (T, T) -> bool, value: T) {
    forall i, j :: 0 <= i < j < |s| && less(s[j], value) ==> less(s[i], value)
  }

  /** `k` is the least index whose element is not below `value`, or the length when there is none. */
  ghost predicate IsLowerBound<T>(s: seq<T>, less: (T, T) -> bool, value: T, k: nat) {
    && k <= |s|
    && (forall i :: 0 <= i < k ==> less(s[i], value))
    && (forall i :: k <= i < |s| ==> !less(s[i], value))
  }

  lemma SortedIsPartitioned<T(!new)>(s: seq<T>, less: (T, T) -> bool, value: T)
    requires forall i, j :: 0 <= i < j < |s| ==> !less(s[j], s[i])
    requires forall a, b, c :: less(a, c) ==> less(a, b) || less(b, c)
    ensures Partitioned(s, less, value)
  {
  }

  /** The first element of a subtree, found by following first children. */
  method SubtreeFirstValue<T>(n: Node<T>, ghost h: nat) returns (value: T)
    requires WF(n, h)
    ensures |Elems(n)| > 0 && value == Elems(n)[0]
  {
    WFNonEmpty(n, h);
    var cur := n;
    ghost var hc := h;
    while cur.Inner?
      invariant WF(cur, hc) && |Elems(cur)| > 0 && Elems(cur)[0] == Elems(n)[0]
      decreases hc
    {
      AllWFAt(cur.children, hc - 1, 0);
      WFNonEmpty(cur.children[0], hc - 1);
      cur, hc := cur.children[0], hc - 1;
    }
    value := cur.elems[0];
  }

  /** The first element of child k sits at its offset. */
  lemma {:induction false} FirstAt<T>(cs: seq<Node<T>>, h: nat, k: nat)
    requires AllWF(cs, h) && k < |cs|
    ensures |Elems(cs[k])| > 0 && Off(cs, k) < |Flat(cs)| && Flat(cs)[Off(cs, k)] == Elems(cs[k])[0]
  {
    AllWFAt(cs, h, k);
    WFNonEmpty(cs[k], h);
    FlatAt(cs, k);
  }

  /**
   * The child before the first child, from the second on, that starts with an element not below `value`. A child that
   * starts with `value` itself is passed over, since equal elements may end the child before it.
   */
  method PickChild<T>(cs: seq<Node<T>>, less: (T, T) -> bool, value: T, ghost h: nat) returns (k: nat)
    requires AllWF(cs, h) && cs != [] && Partitioned(Flat(cs), less, value)
    ensures k < |cs|
    ensures k > 0 ==> Off(cs, k) < |Flat(cs)| && less(Flat(cs)[Off(cs, k)], value)
    ensures k + 1 < |cs| ==> Off(cs, k + 1) < |Flat(cs)| && !less(Flat(cs)[Off(cs, k + 1)], value)
  {
    var left, right := 1, |cs|;
    while left < right
      invariant 1 <= left <= right <= |cs|
      invariant left > 1 ==> Off(cs, left - 1) < |Flat(cs)| && less(Flat(cs)[Off(cs, left - 1)], value)
      invariant right < |cs| ==> Off(cs, right) < |Flat(cs)| && !less(Flat(cs)[Off(cs, right)], value)
    {
      var mid := left + (right - left) / 2;
      FirstAt(cs, h, mid);
      AllWFAt(cs, h, mid);
      var first := SubtreeFirstValue(cs[mid], h);
      if less(first, value) {
        left := mid + 1;
      } else {
        right := mid;
      }
    }
    k := left - 1;
  }

  method LeafLowerBound<T>(leaf: seq<T>, less: (T, T) -> bool, value: T) returns (left: nat)
    requires Partitioned(leaf, less, value)
    ensures IsLowerBound(leaf, less, value, left)
  {
    left := 0;
    var right: nat := |leaf|;
    while left < right
      invariant left <= right <= |leaf|
      invariant forall i :: 0 <= i < left ==> less(leaf[i], value)
      invariant forall i :: right <= i < |leaf| ==> !less(leaf[i], value)
    {
      var mid := left + (right - left) / 2;
      if less(leaf[mid], value) {
        left := mid + 1;
      } else {
        right := mid;
      }
    }
  }

  /** `part` is the stretch of s from `base` on, all before it is below `value`, all after it is not. */
  ghost predicate Narrowed<T>(s: seq<T>, less: (T, T) -> bool, value: T, base: nat, part: seq<T>) {
    && base + |part| <= |s| && s[base..base + |part|] == part
    && (forall i :: 0 <= i < base ==> less(s[i], value))
    && (forall i :: base + |part| <= i < |s| ==> !less(s[i], value))
  }

  lemma SubSlice<T>(s: seq<T>, a: nat, b: nat, off: nat, size: nat)
    requires a <= b <= |s| && off + size <= b - a
    ensures s[a..b][off..off + size] == s[a + off..a + off + size]
  {
    var l, r := s[a..b][off..off + size], s[a + off..a + off + size];
    forall i | 0 <= i < size ensures l[i] == r[i] {
      assert l[i] == s[a..b][off + i];
    }
  }

  /** A stretch that starts below `value`, or starts the narrowed one, and is followed by what is not below it. */
  lemma {:induction false} NarrowMore<T>(s: seq<T>, less: (T, T) -> bool, value: T, base: nat, part: seq<T>, off: nat,
                                         sub: seq<T>)
    requires Partitioned(s, less, value) && Narrowed(s, less, value, base, part)
    requires off + |sub| <= |part| && sub == part[off..off + |sub|] && |sub| > 0
    requires off > 0 ==> less(part[off], value)
    requires off + |sub| < |part| ==> !less(part[off + |sub|], value)
    ensures Narrowed(s, less, value, base + off, sub)
  {
    SubSlice(s, base, base + |part|, off, |sub|);
    assert s[base + off] == part[off];
    if off + |sub| < |part| {
      assert s[base + off + |sub|] == part[off + |sub|];
    }
  }

  lemma {:induction false} PartitionedPart<T>(s: seq<T>, less: (T, T) -> bool, value: T, i: nat, j: nat)
    requires Partitioned(s, less, value) && i <= j <= |s|
    ensures Partitioned(s[i..j], less, value)
  {
  }

  lemma {:induction false} ChildStretch<T>(cs: seq<Node<T>>, h: nat, k: nat)
    requires AllWF(cs, h) && k < |cs|
    ensures WF(cs[k], h) && |Elems(cs[k])| > 0
    ensures Off(cs, k) + |Elems(cs[k])| <= |Flat(cs)|
    ensures Elems(cs[k]) == Flat(cs)[Off(cs, k)..Off(cs, k) + |Elems(cs[k])|]
    ensures k == 0 ==> Off(cs, k) == 0
    ensures Off(cs, k + 1) == Off(cs, k) + |Elems(cs[k])|
    ensures k + 1 == |cs| ==> Off(cs, k + 1) == |Flat(cs)|
  {
    AllWFAt(cs, h, k);
    WFNonEmpty(cs[k], h);
    FlatAt(cs, k);
    OffStep(cs, k);
    OffEnd(cs);
  }

  /** One level down: the child in which the bound lies, or behind which it lies, and where that child starts. */
  method Descend<T>(cur: Node<T>, base: nat, less: (T, T) -> bool, value: T, ghost s: seq<T>, ghost h: nat)
    returns (next: Node<T>, base': nat)
    requires cur.Inner? && WF(cur, h) && Partitioned(s, less, value) && Narrowed(s, less, value, base, Elems(cur))
    ensures h > 0 && WF(next, h - 1) && Narrowed(s, less, value, base', Elems(next))
  {
    PartitionedPart(s, less, value, base, base + |Elems(cur)|);
    var k := PickChild(cur.children, less, value, h - 1);
    NarrowToChild(s, less, value, base, cur.children, h - 1, k);
    StartIsOff(cur.form, cur.children, h, k);
    next, base' := cur.children[k], base;
    if k > 0 {
      base' := base + StartOf(cur.form, cur.children, k);
    }
  }

  lemma {:induction false} NarrowToChild<T>(s: seq<T>, less: (T, T) -> bool, value: T, base: nat, cs: seq<Node<T>>,
                                            h: nat, k: nat)
    requires AllWF(cs, h) && k < |cs| && Partitioned(s, less, value) && Narrowed(s, less, value, base, Flat(cs))
    requires k > 0 ==> Off(cs, k) < |Flat(cs)| && less(Flat(cs)[Off(cs, k)], value)
    requires k + 1 < |cs| ==> Off(cs, k + 1) < |Flat(cs)| && !less(Flat(cs)[Off(cs, k + 1)], value)
    ensures WF(cs[k], h) && (k == 0 ==> Off(cs, k) == 0) && Narrowed(s, less, value, base + Off(cs, k), Elems(cs[k]))
  {
    ChildStretch(cs, h, k);
    NarrowMore(s, less, value, base, Flat(cs), Off(cs, k), Elems(cs[k]));
  }

  method LowerBound<T>(root: Node<T>, less: (T, T) -> bool, value: T, ghost h: nat) returns (k: nat)
    requires RootWF(root, h) && Partitioned(Elems(root), less, value)
    ensures IsLowerBound(Elems(root), less, value, k)
  {
    ghost var s := Elems(root);
    var cur := root;
    var base: nat := 0;
    ghost var hc := h;
    while cur.Inner?
      invariant cur.Inner? ==> WF(cur, hc)
      invariant Narrowed(s, less, value, base, Elems(cur))
      decreases hc
    {
      cur, base := Descend(cur, base, less, value, s, hc);
      hc := hc - 1;
    }
    PartitionedPart(s, less, value, base, base + |cur.elems|);
    var left := LeafLowerBound(cur.elems, less, value);
    BoundInStretch(s, less, value, base, cur.elems, left);
    k := base + left;
  }

  lemma {:induction false} BoundInStretch<T>(s: seq<T>, less: (T, T) -> bool, value: T, base: nat, part: seq<T>,
                                             left: nat)
    requires Narrowed(s, less, value, base, part) && IsLowerBound(part, less, value, left)
    ensures IsLowerBound(s, less, value, base + left)
  {
    forall i | 0 <= i < |s| ensures less(s[i], value) <==> i < base + left {
      if base <= i < base + |part| {
        assert s[i] == part[i - base];
      }
    }
  }
}
