/** The accessor through which an inner node is changed in place (BPlusTreeInner). */
module BpInner {
  import opened Options
  import opened BpNode
  import opened BpShape
  import Bounds

  /** Offsets from entry `begin` on, moved by `diff` (ArrayUnsigned::adjust without wrap-around). */
  function Adjusted(offs: seq<nat>, begin: nat, diff: int): (r: seq<nat>)
    requires forall i :: begin <= i < |offs| ==> offs[i] + diff >= 0
    ensures |r| == |offs|
    ensures forall i :: 0 <= i < |offs| ==> r[i] == if i < begin then offs[i] else offs[i] + diff
  {
    seq(|offs|, i requires 0 <= i < |offs| => if i < begin then offs[i] else offs[i] + diff)
  }

  // ---- Offsets under the three structural edits ----

  lemma {:induction false} OffsetsReplace<T>(cs: seq<Node<T>>, k: nat, c: Node<T>, offs: seq<nat>, offs': seq<nat>)
    requires k < |cs| && OffsetsOk(offs, cs) && |offs'| == |offs|
    requires forall i :: 0 <= i < |offs| ==>
                           offs'[i] == if i < k then offs[i] else offs[i] + |Elems(c)| - |Elems(cs[k])|
    ensures OffsetsOk(offs', cs[k := c])
  {
    forall i | 0 <= i < |offs'| ensures offs'[i] == Off(cs[k := c], i + 1) {
      OffUpdate(cs, k, c, i + 1);
    }
  }

  lemma {:induction false} OffUpdate<T>(cs: seq<Node<T>>, k: nat, c: Node<T>, j: nat)
    requires k < |cs| && j <= |cs|
    ensures Off(cs[k := c], j) == if j <= k then Off(cs, j) else Off(cs, j) + |Elems(c)| - |Elems(cs[k])|
  {
    var a, b := cs[..k], cs[k + 1..];
    assert cs[k := c] == a + [c] + b;
    assert cs == a + [cs[k]] + b;
    OffSplice(a, [c], b, j);
    OffSplice(a, [cs[k]], b, j);
    FlatOne(c);
    FlatOne(cs[k]);
  }

  lemma {:induction false} FlatUpdate<T>(cs: seq<Node<T>>, k: nat, c: Node<T>)
    requires k < |cs|
    ensures Flat(cs[k := c]) == Flat(cs[..k]) + Elems(c) + Flat(cs[k + 1..])
  {
    assert cs[k := c] == cs[..k] + [c] + cs[k + 1..];
    FlatSplice(cs[..k], [c], cs[k + 1..]);
    FlatOne(c);
  }

  /** Child k becomes c followed by a new sibling s. */
  lemma {:induction false} OffsetsInsert<T>(cs: seq<Node<T>>, k: nat, c: Node<T>, s: Node<T>, offs: seq<nat>,
                                            offs': seq<nat>)
    requires k < |cs| && OffsetsOk(offs, cs) && |offs'| == |offs| + 1
    requires forall i :: 0 <= i < k ==> offs'[i] == offs[i]
    requires offs'[k] == Off(cs, k) + |Elems(c)|
    requires forall i :: k < i < |offs'| ==> offs'[i] == offs[i - 1] + |Elems(c)| + |Elems(s)| - |Elems(cs[k])|
    ensures OffsetsOk(offs', cs[..k] + [c, s] + cs[k + 1..])
  {
    var a, b := cs[..k], cs[k + 1..];
    var cs' := a + [c, s] + b;
    forall i | 0 <= i < |offs'| ensures offs'[i] == Off(cs', i + 1) {
      OffSplice(a, [c, s], b, i + 1);
      FlatTwo(c, s);
      if i < k {
        assert a[..i + 1] == cs[..i + 1];
      } else if i == k {
        assert [c, s][..1] == [c];
        FlatOne(c);
      } else {
        OffTail(cs, k + 1, i);
        OffStep(cs, k);
      }
    }
  }

  lemma {:induction false} FlatTwo<T>(c: Node<T>, s: Node<T>)
    ensures Flat([c, s]) == Elems(c) + Elems(s)
  {
    assert [c, s] == [c] + [s];
    FlatAppend([c], [s]);
    FlatOne(c);
    FlatOne(s);
  }

  class InnerNode<T> {
    var form: Form
    var children: seq<Node<T>>
    var total: nat

    function Image(): Node<T>
      reads this
    {
      Inner(form, children, total)
    }

    constructor FromImage(n: Node<T>)
      requires n.Inner?
      ensures Image() == n
    {
      form, children, total := n.form, n.children, n.total;
    }

    /** A node without children, born in compact form. */
    constructor Create(elemsPerChild: nat)
      ensures Image() == Inner(Compact(elemsPerChild), [], 0)
    {
      form, children, total := Compact(elemsPerChild), [], 0;
    }

    function ChildOffset(k: nat): nat
      reads this
      requires form.General? && k <= |form.offsets|
    {
      if k > 0 then form.offsets[k - 1] else 0
    }

    method EnsureOffsets()
      requires form.Compact? ==> forall i :: 0 <= i < |children| - 1 ==> |Elems(children[i])| == form.elemsPerChild
      modifies this`form
      ensures form.General?
      ensures old(form).General? ==> form == old(form)
      ensures old(form).Compact? ==>
                if children == [] then form.offsets == [] else OffsetsOk(form.offsets, children)
    {
      if form.Compact? {
        var e := form.elemsPerChild;
        var count := if children == [] then 0 else |children| - 1;
        var offsets: seq<nat> := [];
        var offs := 0;
        while |offsets| < count
          invariant |offsets| <= count
          invariant count > 0 ==> offs == Off(children, |offsets|)
          invariant forall i :: 0 <= i < |offsets| ==> offsets[i] == Off(children, i + 1)
        {
          OffStep(children, |offsets|);
          offs := offs + e;
          offsets := offsets + [offs];
        }
        form := General(offsets);
      }
    }

    /** The child that holds position n, and where it starts. */
    method FindChild(n: nat, ghost h: nat) returns (k: nat, off: nat)
      requires WF(Image(), h) && n < total
      ensures k < |children| && off == Off(children, k)
      ensures off <= n < off + |Elems(children[k])|
    {
      match form
      case General(offsets) =>
        OffsetsSorted(offsets, children);
        k := Bounds.UpperBound(offsets, n);
        off := ChildOffset(k);
        LocateGeneral(children, offsets, n, k);
      case Compact(e) =>
        PowPos(h);
        SizeBound(children[|children| - 1], h - 1);
        k, off := FindCompact(e, n);
    }

    method FindCompact(e: nat, n: nat) returns (k: nat, off: nat)
      requires e >= 1 && children != [] && n < |Flat(children)| && |Elems(children[|children| - 1])| <= e
      requires forall i :: 0 <= i < |children| - 1 ==> |Elems(children[i])| == e
      ensures k < |children| && off == Off(children, k)
      ensures off <= n < off + |Elems(children[k])|
    {
      k := n / e;
      off := k * e;
      DivSpan(n, e);
      LocateCompact(children, e, n, k);
    }

    method AddBpNode(c: Node<T>, offset: nat)
      modifies this
      ensures children == old(children) + [c] && total == old(total)
      ensures form == if offset != 0 && old(form).General? then General(old(form).offsets + [offset]) else old(form)
    {
      children := children + [c];
      if offset != 0 && form.General? {
        form := General(form.offsets + [offset]);
      }
    }

    /** Add the children from `ndx` on to the end of `dst`, their offsets lowered by `adj`. */
    method CopyTo(dst: InnerNode<T>, ndx: nat, adj: int)
      requires this != dst && dst.form.General? && form.General?
      requires |form.offsets| == |children| - 1 && CanMove(form.offsets, ndx, adj)
      modifies dst
      ensures dst.children == old(dst.children) + children[ndx..] && dst.total == old(dst.total)
      ensures dst.form == General(old(dst.form.offsets) + Moved(form.offsets, ndx, |children|, adj))
    {
      var i := ndx;
      while i < |children|
        modifies dst
        invariant ndx <= i <= |children| && dst.total == old(dst.total)
        invariant dst.children == old(dst.children) + children[ndx..i]
        invariant dst.form == General(old(dst.form.offsets) + Moved(form.offsets, ndx, i, adj))
      {
        dst.AddBpNode(children[i], ChildOffset(i) - adj);
        i := i + 1;
      }
    }

    /** Hand the children from `ndx` on over to `dst`. */
    method Move(dst: InnerNode<T>, ndx: nat, adj: int)
      requires this != dst && dst.form.General? && form.General?
      requires |form.offsets| == |children| - 1 && CanMove(form.offsets, ndx, adj)
      modifies this, dst
      ensures dst.children == old(dst.children) + old(children)[ndx..] && dst.total == old(dst.total)
      ensures dst.form == General(old(dst.form.offsets) + Moved(old(form.offsets), ndx, |old(children)|, adj))
      ensures children == old(children)[..ndx] && total == old(total)
      ensures form == General(if ndx > 0 then old(form.offsets)[..ndx - 1] else old(form.offsets))
    {
      CopyTo(dst, ndx, adj);
      children := children[..ndx];
      if ndx > 0 {
        form := General(form.offsets[..ndx - 1]);
      }
    }

    /** Where child k starts, read from the node itself. */
    function Start(k: nat): nat
      reads this
      requires form.General? ==> k <= |form.offsets|
    {
      if form.General? then ChildOffset(k) else k * form.elemsPerChild
    }

    /** At the call child k has already been changed; form and total still describe the children `cs`. */
    ghost predicate Splitting(cs: seq<Node<T>>, h: nat, k: nat, sib: Node<T>, count: nat, offset: nat, size: nat)
      reads this
    {
      && k < |cs| && |children| == |cs| && children == cs[k := children[k]]
      && ChildSplit(form, cs, total, h, k, children[k], sib, count)
      && offset == |Elems(children[k])| && size == offset + |Elems(sib)|
    }

    /** Store `sib` after child k, `count` elements more in all. */
    method AddSibling(k: nat, sib: Node<T>, count: nat, splitOffset: nat, ghost cs: seq<Node<T>>)
      requires k < |cs| == |children| && children == cs[k := children[k]] && splitOffset == |Elems(children[k])|
      requires form.General? ==> |form.offsets| == |cs| - 1
      modifies this
      ensures Image() == WithSibling(old(form), cs, old(total), k, old(children)[k], sib, count)
    {
      InsertAfter(children, k, sib);
      assert children[..k] == cs[..k] && children[k + 1..] == cs[k + 1..];
      children := children[..k + 1] + [sib] + children[k + 1..];
      total := total + count;
      if form.General? {
        form := General(WithOffset(form.offsets, k, ChildOffset(k) + splitOffset, count));
      }
    }

    /** A full node whose last child was split: the new child starts a new node. */
    method SplitAtEnd(k: nat, sib: Node<T>, splitOffset: nat, splitSize: nat, ghost cs: seq<Node<T>>)
      returns (r: Node<T>, newOffset: nat, newSize: nat)
      requires k < |cs| == |children| && children == cs[k := children[k]]
      requires form.General? ==> |form.offsets| == |cs| - 1
      requires splitOffset == |Elems(children[k])| && splitSize == splitOffset + |Elems(sib)|
      modifies this`total
      ensures (Image(), r) == EndHalves(form, cs, k, children[k], sib)
      ensures newOffset == total && newSize == total + |Elems(sib)|
    {
      var sibling: InnerNode<T>;
      var start := Start(k);
      if form.General? {
        sibling := new InnerNode.Create(0);
        sibling.EnsureOffsets();
      } else {
        sibling := new InnerNode.Create(form.elemsPerChild);
      }
      newOffset := start + splitOffset;
      newSize := start + splitSize;
      sibling.AddBpNode(sib, 0);
      assert sibling.children == [sib];
      total := newOffset;
      sibling.total := newSize - newOffset;
      r := sibling.Image();
    }

    /** A full node whose child k was split before its end: the children after k move to a new node. */
    method SplitInside(k: nat, sib: Node<T>, splitOffset: nat, splitSize: nat, ghost cs: seq<Node<T>>)
      returns (r: Node<T>, newOffset: nat, newSize: nat)
      requires k + 1 < |cs| == |children| && children == cs[k := children[k]]
      requires form.General? && |form.offsets| == |cs| - 1
      requires splitOffset == |Elems(children[k])| > 0 && splitSize == splitOffset + |Elems(sib)|
      requires Start(k) + splitSize <= total + 1 && CanMove(form.offsets, k + 1, Start(k) + splitSize - 1)
      modifies this
      ensures (Image(), r) == InsideHalves(old(form).offsets, cs, old(total), k, old(children)[k], sib)
      ensures newOffset == total && newSize == old(total) + 1
    {
      var sibling := new InnerNode<T>.Create(0);
      sibling.EnsureOffsets();
      var start := ChildOffset(k);
      newOffset := start + splitSize;
      newSize := total + 1;
      assert children[..k + 1] + [sib] == cs[..k] + [children[k], sib];
      assert children[k + 1..] == cs[k + 1..];
      Move(sibling, k + 1, newOffset - 1);
      assert sibling.children == cs[k + 1..];
      assert sibling.form.offsets == Moved(old(form).offsets, k + 1, |cs|, newOffset - 1);
      AddBpNode(sib, start + splitOffset);
      total := newOffset;
      sibling.total := newSize - newOffset;
      r := sibling.Image();
    }

    /** Put `sib` after child k; this node is split when it is already full. */
    method InsertBpNode(k: nat, sib: Node<T>, count: nat, splitOffset: nat, splitSize: nat, ghost cs: seq<Node<T>>,
                        ghost h: nat)
      returns (r: Option<Node<T>>, newOffset: nat, newSize: nat)
      requires Splitting(cs, h, k, sib, count, splitOffset, splitSize)
      modifies this
      ensures WF(Image(), h) && form.Compact? == old(form).Compact?
      ensures r.None? ==> Elems(Image()) == Widened(cs, k, old(children)[k], sib) && |children| == |cs| + 1
      ensures r.Some? ==>
                && SplitOk(Image(), r.value, h, newOffset, newSize)
                && Elems(Image()) + Elems(r.value) == Widened(cs, k, old(children)[k], sib)
      ensures (Image(), r) == Regrown(old(form), cs, k, old(children)[k], Some(sib))
    {
      var sz := |children|;
      if sz < M {
        AddSiblingOk(form, cs, total, h, k, children[k], sib, count);
        AddSibling(k, sib, count, splitOffset, cs);
        OverItself(Image(), h, old(form));
        return None, 0, 0;
      }
      var s: Node<T>;
      if k + 1 == sz {
        SplitAtEndOk(form, cs, total, h, k, children[k], sib, count);
        s, newOffset, newSize := SplitAtEnd(k, sib, splitOffset, splitSize, cs);
      } else {
        SplitInsideOk(form, cs, total, h, k, children[k], sib);
        s, newOffset, newSize := SplitInside(k, sib, splitOffset, splitSize, cs);
      }
      OverItself(Image(), h, old(form));
      OverItself(s, h, old(form));
      r := Some(s);
    }

    /** The child an insertion goes to: the last one when appending, else the one that holds the position. */
    method LocateInsert(ndx: Option<nat>, ghost h: nat) returns (k: nat, off: nat, childNdx: Option<nat>)
      requires WF(Image(), h) && (ndx.Some? ==> ndx.value < total)
      modifies this`form
      ensures WF(Image(), h) && (ndx.Some? ==> form.General?) && (ndx.None? ==> form == old(form))
      ensures k < |children| && off == Off(children, k) && (ndx.None? ==> k == |children| - 1)
      ensures ndx.None? <==> childNdx.None?
      ensures ndx.Some? ==> ndx.value == off + childNdx.value && childNdx.value < |Elems(children[k])|
    {
      if ndx.Some? {
        EnsureOffsets();
        k, off := FindChild(ndx.value, h);
        childNdx := Some(ndx.value - off);
      } else {
        k := |children| - 1;
        off := Start(k);
        StartIsOff(form, children, h, k);
        childNdx := None;
      }
    }

    /** Child k was changed in place and not split: bring total and offsets up to date. */
    method ChildChanged(k: nat, diff: int, ghost cs: seq<Node<T>>, ghost h: nat)
      requires h > 0 && k < |cs| == |children| && children == cs[k := children[k]]
      requires WF(Inner(form, cs, total), h) && WF(children[k], h - 1)
      requires |Elems(children[k])| == |Elems(cs[k])| + diff
      requires form.Compact? ==> k == |cs| - 1 && IsCompact(children[k])
      modifies this
      ensures WF(Image(), h) && Image() == Over(old(form), old(children)) && form.Compact? == old(form).Compact?
      ensures Elems(Image()) == Flat(cs[..k]) + Elems(children[k]) + Flat(cs[k + 1..])
    {
      WithChildOk(form, cs, total, h, k, children[k], diff);
      ghost var n := WithChild(form, cs, total, k, children[k], diff);
      total := total + diff;
      if form.General? {
        form := General(Adjusted(form.offsets, k, diff));
      }
      assert Image() == n;
      OverItself(n, h, old(form));
    }
  }

  ghost predicate CanMove(offs: seq<nat>, ndx: nat, adj: int) {
    && ndx <= |offs|
    && (if ndx > 0 then offs[ndx - 1] else 0) - adj >= 0
    && (forall i :: ndx <= i < |offs| ==> offs[i] - adj > 0)
  }

  /** The offsets array with `at` inserted at entry k and the later entries moved by `count`. */
  function WithOffset(offs: seq<nat>, k: nat, at: nat, count: nat): (r: seq<nat>)
    requires k <= |offs|
    ensures |r| == |offs| + 1 && r[k] == at
    ensures forall i :: 0 <= i < k ==> r[i] == offs[i]
    ensures forall i :: k <= i < |offs| ==> r[i + 1] == offs[i] + count
  {
    Adjusted(offs[..k] + [at] + offs[k..], k + 1, count)
  }

  /** Child k of a well-formed node became `c` followed by `s`, `count` elements more in all. */
  ghost predicate ChildSplit<T>(form: Form, cs: seq<Node<T>>, total: nat, h: nat, k: nat, c: Node<T>, s: Node<T>,
                                count: nat)
  {
    && h > 0 && k < |cs| && WF(Inner(form, cs, total), h)
    && WF(c, h - 1) && WF(s, h - 1)
    && |Elems(c)| + |Elems(s)| == |Elems(cs[k])| + count
    && (form.Compact? ==> k == |cs| - 1 && IsCompact(c) && IsCompact(s) && |Elems(c)| == Pow(h))
    && (k < |cs| - 1 ==> count == 1)
  }

  /** The inner node `n` was split and `s` holds what comes after it; a compact node is left full. */
  ghost predicate SplitOk<T>(n: Node<T>, s: Node<T>, h: nat, offset: nat, size: nat) {
    && WF(s, h)
    && (IsCompact(n) <==> IsCompact(s))
    && offset == |Elems(n)| && size == offset + |Elems(s)|
    && (IsCompact(n) ==> offset == Pow(h + 1))
  }

  /** Where child k starts, read from the stored form alone. */
  function StartOf<T>(form: Form, cs: seq<Node<T>>, k: nat): nat
    requires k < |cs| && (form.General? ==> |form.offsets| == |cs| - 1)
  {
    if form.Compact? then k * form.elemsPerChild else if k > 0 then form.offsets[k - 1] else 0
  }

  lemma {:induction false} StartIsOff<T>(form: Form, cs: seq<Node<T>>, h: nat, k: nat)
    requires k < |cs| && FormOk(form, cs, h)
    ensures StartOf(form, cs, k) == Off(cs, k)
  {
    if form.Compact? {
      CompactOff(cs, form.elemsPerChild, k);
    } else {
      assert k == 0 ==> Off(cs, 0) == 0;
    }
  }

  ghost function WithSibling<T>(form: Form, cs: seq<Node<T>>, total: nat, k: nat, c: Node<T>, s: Node<T>,
                                count: nat): Node<T>
    requires k < |cs| && (form.General? ==> |form.offsets| == |cs| - 1)
  {
    Inner(if form.Compact? then form else
            General(WithOffset(form.offsets, k, (if k > 0 then form.offsets[k - 1] else 0) + |Elems(c)|, count)),
          cs[..k] + [c, s] + cs[k + 1..],
          total + count)
  }

  lemma {:induction false} AddSiblingOk<T>(form: Form, cs: seq<Node<T>>, total: nat, h: nat, k: nat, c: Node<T>,
                                           s: Node<T>, count: nat)
    requires ChildSplit(form, cs, total, h, k, c, s, count) && |cs| < M
    ensures WF(WithSibling(form, cs, total, k, c, s, count), h)
    ensures Elems(WithSibling(form, cs, total, k, c, s, count)) == Widened(cs, k, c, s)
  {
    WidenedShape(cs, k, c, s);
    AllWFSplice(cs, h - 1, k, k + 1, [c, s]);
    if form.General? {
      StartIsOff(form, cs, h, k);
      var offs' := WithSibling(form, cs, total, k, c, s, count).form.offsets;
      forall i | k < i < |offs'| ensures offs'[i] == form.offsets[i - 1] + count {
        assert offs'[i - 1 + 1] == form.offsets[i - 1] + count;
      }
      OffsetsInsert(cs, k, c, s, form.offsets, offs');
    }
  }

  /** Both halves after a full node was split behind its last child k. */
  ghost function EndHalves<T>(form: Form, cs: seq<Node<T>>, k: nat, c: Node<T>, s: Node<T>): (Node<T>, Node<T>)
    requires k < |cs| && (form.General? ==> |form.offsets| == |cs| - 1)
  {
    (Inner(form, cs[k := c], StartOf(form, cs, k) + |Elems(c)|),
     Inner(if form.General? then General([]) else form, [s], |Elems(s)|))
  }

  lemma {:induction false} SplitAtEndOk<T>(form: Form, cs: seq<Node<T>>, total: nat, h: nat, k: nat, c: Node<T>,
                                           s: Node<T>, count: nat)
    requires ChildSplit(form, cs, total, h, k, c, s, count) && k + 1 == |cs| == M
    ensures var (n, r) := EndHalves(form, cs, k, c, s);
            && WF(n, h) && SplitOk(n, r, h, n.total, n.total + |Elems(s)|)
            && Elems(n) + Elems(r) == Widened(cs, k, c, s)
  {
    StartIsOff(form, cs, h, k);
    FlatUpdate(cs, k, c);
    FlatOne(s);
    assert cs[k + 1..] == [];
    AllWFSplice(cs, h - 1, k, k + 1, [c]);
    assert cs[k := c] == cs[..k] + [c] + cs[k + 1..];
    if form.General? {
      OffsetsReplace(cs, k, c, form.offsets, form.offsets);
    } else {
      PowStep(h, k);
    }
  }

  /** Both halves after a full node was split behind child k, which was not its last. */
  ghost function InsideHalves<T>(offs: seq<nat>, cs: seq<Node<T>>, total: nat, k: nat, c: Node<T>, s: Node<T>)
    : (Node<T>, Node<T>)
    requires k + 1 < |cs| && |offs| == |cs| - 1
    requires var offset := StartOf(General(offs), cs, k) + |Elems(c)| + |Elems(s)|;
             0 < offset <= total + 1 && CanMove(offs, k + 1, offset - 1)
  {
    var start := StartOf(General(offs), cs, k);
    var offset := start + |Elems(c)| + |Elems(s)|;
    (Inner(General(offs[..k] + [start + |Elems(c)|]), cs[..k] + [c, s], offset),
     Inner(General(Moved(offs, k + 1, |cs|, offset - 1)), cs[k + 1..], total + 1 - offset))
  }

  lemma {:induction false} SplitInsideOk<T>(form: Form, cs: seq<Node<T>>, total: nat, h: nat, k: nat, c: Node<T>,
                                            s: Node<T>)
    requires ChildSplit(form, cs, total, h, k, c, s, 1) && k + 1 < |cs| == M
    ensures var start := StartOf(form, cs, k);
            var offset := start + |Elems(c)| + |Elems(s)|;
            && |Elems(c)| > 0 && offset <= total + 1
            && CanMove(form.offsets, k + 1, offset - 1)
            && (var (n, r) := InsideHalves(form.offsets, cs, total, k, c, s);
                && WF(n, h) && SplitOk(n, r, h, offset, total + 1)
                && Elems(n) + Elems(r) == Widened(cs, k, c, s))
  {
    StartIsOff(form, cs, h, k);
    WFNonEmpty(c, h - 1);
    OffStep(cs, k);
    FlatAt(cs, k);
    TailMovable(cs, form.offsets, k, h);
    HeadHalf(form.offsets, cs, h, k, c, s);
    AllWFSub(cs, h - 1, k + 1, |cs|);
  }

  lemma {:induction false} HeadHalf<T>(offs: seq<nat>, cs: seq<Node<T>>, h: nat, k: nat, c: Node<T>, s: Node<T>)
    requires h > 0 && k + 1 < |cs| <= M && OffsetsOk(offs, cs)
    requires AllWF(cs, h - 1) && WF(c, h - 1) && WF(s, h - 1)
    ensures var n := Inner(General(offs[..k] + [Off(cs, k) + |Elems(c)|]), cs[..k] + [c, s],
                           Off(cs, k) + |Elems(c)| + |Elems(s)|);
            WF(n, h) && Elems(n) == Flat(cs[..k]) + (Elems(c) + Elems(s))
  {
    AllWFSub(cs, h - 1, 0, k);
    AllWFAppend(cs[..k], [c, s], h - 1);
    HeadOffsets(cs, k, c, s, offs, offs[..k] + [Off(cs, k) + |Elems(c)|]);
  }

  /** Child k grew or shrank by `diff` elements and was not split. */
  ghost function WithChild<T>(form: Form, cs: seq<Node<T>>, total: nat, k: nat, c: Node<T>, diff: int): Node<T>
    requires k < |cs| && total + diff >= 0
    requires form.General? ==> forall i :: k <= i < |form.offsets| ==> form.offsets[i] + diff >= 0
  {
    Inner(if form.Compact? then form else General(Adjusted(form.offsets, k, diff)), cs[k := c], total + diff)
  }

  lemma {:induction false} AdjustableFrom<T>(offs: seq<nat>, cs: seq<Node<T>>, k: nat, diff: int)
    requires k < |cs| && OffsetsOk(offs, cs) && |Elems(cs[k])| + diff >= 0
    ensures forall i :: k <= i < |offs| ==> offs[i] + diff >= 0
    ensures |Flat(cs)| + diff >= 0
  {
    FlatAt(cs, k);
    forall i | k <= i < |offs| ensures offs[i] + diff >= 0 {
      OffMono(cs, k + 1, i + 1);
      OffStep(cs, k);
    }
  }

  lemma {:induction false} WithChildOk<T>(form: Form, cs: seq<Node<T>>, total: nat, h: nat, k: nat, c: Node<T>,
                                          diff: int)
    requires h > 0 && k < |cs| && WF(Inner(form, cs, total), h) && WF(c, h - 1)
    requires |Elems(c)| == |Elems(cs[k])| + diff
    requires form.Compact? ==> k == |cs| - 1 && IsCompact(c)
    ensures total + diff >= 0
    ensures form.General? ==> forall i :: k <= i < |form.offsets| ==> form.offsets[i] + diff >= 0
    ensures WF(WithChild(form, cs, total, k, c, diff), h)
    ensures Elems(WithChild(form, cs, total, k, c, diff)) == Flat(cs[..k]) + Elems(c) + Flat(cs[k + 1..])
  {
    FlatAt(cs, k);
    FlatUpdate(cs, k, c);
    AllWFSplice(cs, h - 1, k, k + 1, [c]);
    assert cs[k := c] == cs[..k] + [c] + cs[k + 1..];
    if form.General? {
      AdjustableFrom(form.offsets, cs, k, diff);
      OffsetsReplace(cs, k, c, form.offsets, Adjusted(form.offsets, k, diff));
    }
  }

  lemma InsertAfter<X>(xs: seq<X>, k: nat, x: X)
    requires k < |xs|
    ensures xs[..k + 1] + [x] + xs[k + 1..] == xs[..k] + [xs[k], x] + xs[k + 1..]
  {
    assert xs[..k + 1] == xs[..k] + [xs[k]];
  }

  /** Content after child k became `c` followed by `s`. */
  ghost function Widened<T>(cs: seq<Node<T>>, k: nat, c: Node<T>, s: Node<T>): seq<T>
    requires k < |cs|
  {
    Flat(cs[..k]) + (Elems(c) + Elems(s)) + Flat(cs[k + 1..])
  }

  lemma {:induction false} WidenedShape<T>(cs: seq<Node<T>>, k: nat, c: Node<T>, s: Node<T>)
    requires k < |cs|
    ensures Flat(cs[..k] + [c, s] + cs[k + 1..]) == Widened(cs, k, c, s)
    ensures |Widened(cs, k, c, s)| == |Flat(cs)| + |Elems(c)| + |Elems(s)| - |Elems(cs[k])|
  {
    FlatSplice(cs[..k], [c, s], cs[k + 1..]);
    FlatTwo(c, s);
    FlatAt(cs, k);
  }

  /** The children after k can be moved out, and their new offsets count from the first of them. */
  lemma {:induction false} TailMovable<T>(cs: seq<Node<T>>, offs: seq<nat>, k: nat, h: nat)
    requires h > 0 && k + 1 < |cs| && OffsetsOk(offs, cs)
    requires AllWF(cs, h - 1)
    ensures CanMove(offs, k + 1, Off(cs, k + 1))
    ensures OffsetsOk(Moved(offs, k + 1, |cs|, Off(cs, k + 1)), cs[k + 1..])
  {
    forall i | k + 1 <= i < |offs| ensures offs[i] > Off(cs, k + 1) {
      OffStrict(cs, h - 1, k + 1, i + 1);
    }
    var r := Moved(offs, k + 1, |cs|, Off(cs, k + 1));
    MovedAt(offs, k + 1, |cs|, Off(cs, k + 1));
    forall i | 0 <= i < |r| ensures r[i] == Off(cs[k + 1..], i + 1) {
      OffTail(cs, k + 1, k + 2 + i);
      assert r[(k + 1 + i) - (k + 1)] == offs[k + 1 + i] - Off(cs, k + 1);
    }
  }

  /** The children that stay behind: those before k, then c and s. */
  lemma {:induction false} HeadOffsets<T>(cs: seq<Node<T>>, k: nat, c: Node<T>, s: Node<T>, offs: seq<nat>,
                                          offs': seq<nat>)
    requires k < |cs| && OffsetsOk(offs, cs) && |offs| >= k
    requires offs' == offs[..k] + [Off(cs, k) + |Elems(c)|]
    ensures OffsetsOk(offs', cs[..k] + [c, s])
    ensures Flat(cs[..k] + [c, s]) == Flat(cs[..k]) + (Elems(c) + Elems(s))
  {
    var a := cs[..k];
    assert a + [c, s] == a + [c, s] + [];
    FlatAppend(a, [c, s]);
    FlatTwo(c, s);
    forall i | 0 <= i < |offs'| ensures offs'[i] == Off(a + [c, s], i + 1) {
      OffSplice(a, [c, s], [], i + 1);
      if i < k {
        assert a[..i + 1] == cs[..i + 1];
      } else {
        assert [c, s][..1] == [c];
        FlatOne(c);
      }
    }
  }

  /** The offsets handed over with children ndx..i; a zero is not stored. */
  function Moved(offs: seq<nat>, ndx: nat, i: nat, adj: int): (r: seq<nat>)
    requires ndx <= i <= |offs| + 1 && CanMove(offs, ndx, adj)
  {
    if i == ndx then [] else
      var o := (if i > 1 then offs[i - 2] else 0) - adj;
      Moved(offs, ndx, i - 1, adj) + if o == 0 then [] else [o]
  }

  lemma {:induction false} MovedAt(offs: seq<nat>, ndx: nat, i: nat, adj: int)
    requires ndx < i <= |offs| + 1 && CanMove(offs, ndx, adj)
    ensures var r := Moved(offs, ndx, i, adj);
            var lead := if (if ndx > 0 then offs[ndx - 1] else 0) == adj then 0 else 1;
            && |r| == i - ndx - 1 + lead
            && (lead == 1 ==> r[0] == (if ndx > 0 then offs[ndx - 1] else 0) - adj)
            && (forall j :: ndx <= j < i - 1 ==> r[j - ndx + lead] == offs[j] - adj)
  {
    if i > ndx + 1 {
      MovedAt(offs, ndx, i - 1, adj);
    } else {
      assert Moved(offs, ndx, ndx, adj) == [];
    }
  }

  lemma {:induction false} OffsetsSorted<T>(offs: seq<nat>, cs: seq<Node<T>>)
    requires 1 <= |cs| && OffsetsOk(offs, cs)
    ensures Bounds.Sorted(offs)
  {
    forall i, j | 0 <= i < j < |offs| ensures offs[i] <= offs[j] {
      OffMono(cs, i + 1, j + 1);
    }
  }

  lemma {:induction false} LocateGeneral<T>(cs: seq<Node<T>>, offs: seq<nat>, n: nat, k: nat)
    requires 1 <= |cs| && OffsetsOk(offs, cs) && n < |Flat(cs)|
    requires Bounds.IsUpperBound(offs, n, k)
    ensures k < |cs| && Off(cs, k) == if k > 0 then offs[k - 1] else 0
    ensures Off(cs, k) <= n < Off(cs, k) + |Elems(cs[k])|
  {
    assert k == 0 ==> Off(cs, k) == 0;
    OffStep(cs, k);
    OffEnd(cs);
    if k < |offs| {
      assert n < offs[k];
    }
  }

  lemma {:induction false} LocateCompact<T>(cs: seq<Node<T>>, e: nat, n: nat, k: nat)
    requires 1 <= |cs| && n < |Flat(cs)| && |Elems(cs[|cs| - 1])| <= e
    requires forall i :: 0 <= i < |cs| - 1 ==> |Elems(cs[i])| == e
    requires k * e <= n < k * e + e
    ensures k < |cs| && Off(cs, k) == k * e && n < k * e + |Elems(cs[k])|
  {
    var last := |cs| - 1;
    CompactOff(cs, e, last);
    OffStep(cs, last);
    OffEnd(cs);
    assert (last + 1) * e == last * e + e;
    if k > last {
      MulMono(last + 1, k, e);
      assert false;
    }
    CompactOff(cs, e, k);
  }

  lemma {:induction false} DivSpan(n: nat, e: nat)
    requires e >= 1
    ensures n / e * e <= n < n / e * e + e
  {
    assert n == n / e * e + n % e;
  }
}
