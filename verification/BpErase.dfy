/** What erasing does to an inner node: a child emptied and dropped, or merged with its next sibling. */
module BpErase {
  import opened BpNode
  import opened BpShape
  import opened BpInner

  /** Entries of the offsets array that remain when child `ndx` goes (erase_and_destroy_bp_node). */
  function WithoutOffset(offs: seq<nat>, ndx: nat): seq<nat> {
    if offs == [] then [] else if ndx < |offs| then offs[..ndx] + offs[ndx + 1..] else offs[..|offs| - 1]
  }

  /** Offsets after child k, now empty, was dropped from a node whose other children did not change. */
  lemma {:induction false} DroppedOffsets<T>(offs: seq<nat>, cs: seq<Node<T>>, k: nat, offs': seq<nat>)
    requires k < |cs| && |cs| >= 2 && OffsetsOk(offs, cs) && |Elems(cs[k])| == 1
    requires |offs'| == |offs| - 1
    requires forall i :: 0 <= i < |offs'| && i < k ==> offs'[i] == offs[i]
    requires forall i :: k <= i < |offs'| ==> offs'[i] + 1 == offs[i + 1]
    ensures OffsetsOk(offs', cs[..k] + cs[k + 1..])
  {
    var a, b := cs[..k], cs[k + 1..];
    assert a + b == a + [] + b;
    forall i | 0 <= i < |offs'| ensures offs'[i] == Off(a + b, i + 1) {
      OffSplice(a, [], b, i + 1);
      if i < k {
        assert a[..i + 1] == cs[..i + 1];
      } else {
        OffTail(cs, k + 1, i + 2);
        OffStep(cs, k);
      }
    }
  }

  ghost function Dropped<T>(offs: seq<nat>, cs: seq<Node<T>>, total: nat, k: nat): Node<T>
    requires k < |cs| && total > 0 && forall i :: k <= i < |offs| ==> offs[i] >= 1
  {
    Inner(General(WithoutOffset(Adjusted(offs, k, -1), k)), cs[..k] + cs[k + 1..], total - 1)
  }

  lemma {:induction false} DroppedOk<T>(offs: seq<nat>, cs: seq<Node<T>>, total: nat, h: nat, k: nat)
    requires h > 0 && k < |cs| && |cs| >= 2 && WF(Inner(General(offs), cs, total), h) && |Elems(cs[k])| == 1
    ensures total > 0 && forall i :: k <= i < |offs| ==> offs[i] >= 1
    ensures WF(Dropped(offs, cs, total, k), h)
    ensures Elems(Dropped(offs, cs, total, k)) == Flat(cs[..k]) + Flat(cs[k + 1..])
  {
    AdjustableFrom(offs, cs, k, -1);
    OtherChildren(cs, h - 1, k);
    DroppedOffsets(offs, cs, k, WithoutOffset(Adjusted(offs, k, -1), k));
  }

  /** The children that remain. */
  lemma {:induction false} OtherChildren<T>(cs: seq<Node<T>>, h: nat, k: nat)
    requires AllWF(cs, h) && k < |cs|
    ensures AllWF(cs[..k] + cs[k + 1..], h) && Flat(cs[..k] + cs[k + 1..]) == Flat(cs[..k]) + Flat(cs[k + 1..])
    ensures |Flat(cs)| == |Flat(cs[..k])| + |Elems(cs[k])| + |Flat(cs[k + 1..])|
  {
    FlatAt(cs, k);
    AllWFSplice(cs, h, k, k + 1, []);
    assert cs[..k] + [] + cs[k + 1..] == cs[..k] + cs[k + 1..];
    FlatAppend(cs[..k], cs[k + 1..]);
  }

  /** Children k and k + 1 became the single child m. */
  ghost function Merged<T>(offs: seq<nat>, cs: seq<Node<T>>, total: nat, k: nat, m: Node<T>): Node<T>
    requires k + 1 < |cs| && |offs| == |cs| - 1
  {
    Inner(General(offs[..k] + offs[k + 1..]), cs[..k] + [m] + cs[k + 2..], total)
  }

  lemma {:induction false} MergedOffsets<T>(offs: seq<nat>, cs: seq<Node<T>>, k: nat, m: Node<T>)
    requires k + 1 < |cs| && OffsetsOk(offs, cs) && Elems(m) == Elems(cs[k]) + Elems(cs[k + 1])
    ensures OffsetsOk(offs[..k] + offs[k + 1..], cs[..k] + [m] + cs[k + 2..])
  {
    var a, b := cs[..k], cs[k + 2..];
    var offs' := offs[..k] + offs[k + 1..];
    forall i | 0 <= i < |offs'| ensures offs'[i] == Off(a + [m] + b, i + 1) {
      OffSplice(a, [m], b, i + 1);
      FlatOne(m);
      if i < k {
        assert a[..i + 1] == cs[..i + 1];
      } else {
        OffTail(cs, k + 2, i + 2);
        OffStep(cs, k);
        OffStep(cs, k + 1);
      }
    }
  }

  lemma {:induction false} MergedOk<T>(offs: seq<nat>, cs: seq<Node<T>>, total: nat, h: nat, k: nat, m: Node<T>)
    requires h > 0 && k + 1 < |cs| && WF(Inner(General(offs), cs, total), h)
    requires WF(m, h - 1) && Elems(m) == Elems(cs[k]) + Elems(cs[k + 1])
    ensures WF(Merged(offs, cs, total, k, m), h)
    ensures Elems(Merged(offs, cs, total, k, m)) == Flat(cs)
  {
    AllWFSplice(cs, h - 1, k, k + 2, [m]);
    MergedOffsets(offs, cs, k, m);
    FlatSplice(cs[..k], [m], cs[k + 2..]);
    FlatOne(m);
    FlatCut(cs, k, k + 2);
    assert cs[k..k + 2] == [cs[k], cs[k + 1]];
    FlatTwo(cs[k], cs[k + 1]);
  }

  /** The children of a node appended to those of the node before it. */
  ghost function Joined<T>(offs1: seq<nat>, cs1: seq<Node<T>>, offs2: seq<nat>, cs2: seq<Node<T>>): Node<T>
    requires |cs2| == |offs2| + 1 && CanMove(offs2, 0, -|Flat(cs1)|)
  {
    Inner(General(offs1 + Moved(offs2, 0, |cs2|, -|Flat(cs1)|)), cs1 + cs2, |Flat(cs1)| + |Flat(cs2)|)
  }

  lemma {:induction false} JoinedOk<T>(offs1: seq<nat>, cs1: seq<Node<T>>, offs2: seq<nat>, cs2: seq<Node<T>>, h: nat)
    requires h > 0 && cs1 != [] && cs2 != [] && |cs1| + |cs2| <= M
    requires AllWF(cs1, h - 1) && AllWF(cs2, h - 1) && OffsetsOk(offs1, cs1) && OffsetsOk(offs2, cs2)
    ensures CanMove(offs2, 0, -|Flat(cs1)|)
    ensures WF(Joined(offs1, cs1, offs2, cs2), h)
    ensures Elems(Joined(offs1, cs1, offs2, cs2)) == Flat(cs1) + Flat(cs2)
  {
    assert |Flat(cs1)| > 0 by {
      OffStrict(cs1, h - 1, 0, |cs1|);
      OffEnd(cs1);
    }
    AllWFAppend(cs1, cs2, h - 1);
    FlatAppend(cs1, cs2);
    JoinedOffsets(offs1, cs1, offs2, cs2);
  }

  lemma {:induction false} JoinedOffsets<T>(offs1: seq<nat>, cs1: seq<Node<T>>, offs2: seq<nat>, cs2: seq<Node<T>>)
    requires cs1 != [] && cs2 != [] && OffsetsOk(offs1, cs1) && OffsetsOk(offs2, cs2) && |Flat(cs1)| > 0
    ensures CanMove(offs2, 0, -|Flat(cs1)|)
    ensures OffsetsOk(offs1 + Moved(offs2, 0, |cs2|, -|Flat(cs1)|), cs1 + cs2)
  {
    var d := |Flat(cs1)|;
    var moved := Moved(offs2, 0, |cs2|, -d);
    MovedAt(offs2, 0, |cs2|, -d);
    assert cs1 + cs2 == cs1 + [] + cs2;
    forall i | 0 <= i < |offs1 + moved| ensures (offs1 + moved)[i] == Off(cs1 + cs2, i + 1) {
      OffSplice(cs1, [], cs2, i + 1);
      if i >= |cs1| {
        var j := i - |cs1|;
        assert moved[j - 0 + 1] == offs2[j] + d;
      }
    }
  }

  /** Take child `ndx` out of a node in general form. */
  method EraseBpNode<T>(node: InnerNode<T>, ndx: nat)
    requires node.form.General? && ndx < |node.children|
    modifies node`form, node`children
    ensures node.children == old(node.children)[..ndx] + old(node.children)[ndx + 1..]
    ensures node.form == General(WithoutOffset(old(node.form).offsets, ndx))
  {
    node.children := node.children[..ndx] + node.children[ndx + 1..];
    var offs := node.form.offsets;
    if offs != [] {
      if ndx < |offs| {
        node.form := General(offs[..ndx] + offs[ndx + 1..]);
      } else {
        node.form := General(offs[..|offs| - 1]);
      }
    }
  }

  /** All content of the inner sibling `s` appended to the inner node `c` before it. */
  method JoinInner<T>(c: Node<T>, s: Node<T>, adj: int, ghost h: nat) returns (m: Node<T>)
    requires c.Inner? && s.Inner? && WF(c, h) && WF(s, h) && NodeSize(c) + NodeSize(s) <= M && adj == -|Elems(c)|
    ensures WF(m, h) && Elems(m) == Elems(c) + Elems(s) && NodeSize(m) == NodeSize(c) + NodeSize(s) && m == Fused(c, s)
  {
    var node := new InnerNode<T>.FromImage(c);
    var node2 := new InnerNode<T>.FromImage(s);
    node.EnsureOffsets();
    node2.EnsureOffsets();
    JoinedOk(node.form.offsets, node.children, node2.form.offsets, node2.children, h);
    ghost var joined := Joined(node.form.offsets, node.children, node2.form.offsets, node2.children);
    var sum := node.total + node2.total;
    assert node2.children[0..] == node2.children;
    node2.Move(node, 0, adj);
    node.total := sum;
    m := node.Image();
    assert m == joined;
    OverItself(m, h, General([]));
  }

  /** Child k takes over from children k and k + 1: the offset between them goes. */
  method ReplacePair<T>(node: InnerNode<T>, k: nat, m: Node<T>)
    requires node.form.General? && k + 1 < |node.children| && |node.form.offsets| == |node.children| - 1
    modifies node`form, node`children
    ensures node.Image() == Merged(old(node.form).offsets, old(node.children), node.total, k, m)
  {
    var offs, cs := node.form.offsets, node.children;
    if k + 1 < |offs| {
      node.form := General(offs[k := offs[k + 1]]);
    }
    node.children := cs[k := m];
    EraseBpNode(node, k + 1);
    assert node.form.offsets == offs[..k] + offs[k + 1..];
    assert node.children == cs[..k] + [m] + cs[k + 2..];
  }

  /** The merged node for children k and k + 1. */
  method JoinChildren<T>(node: InnerNode<T>, k: nat, ghost h: nat) returns (m: Node<T>)
    requires h > 0 && WF(node.Image(), h) && node.form.General? && k + 1 < |node.children|
    requires NodeSize(node.children[k]) + NodeSize(node.children[k + 1]) <= M
    ensures WF(m, h - 1) && Elems(m) == Elems(node.children[k]) + Elems(node.children[k + 1])
    ensures NodeSize(m) == NodeSize(node.children[k]) + NodeSize(node.children[k + 1]) >= 2
    ensures m == Fused(node.children[k], node.children[k + 1])
  {
    var c, s := node.children[k], node.children[k + 1];
    AllWFAt(node.children, h - 1, k);
    AllWFAt(node.children, h - 1, k + 1);
    if c.Leaf? {
      m := Leaf(c.elems + s.elems);
    } else {
      assert node.form.offsets[k] == Off(node.children, k + 1);
      OffStep(node.children, k);
      assert k == 0 ==> Off(node.children, k) == 0;
      m := JoinInner(c, s, node.ChildOffset(k) - node.form.offsets[k], h - 1);
    }
  }

  /** Children k and k + 1 made one. */
  ghost function FusedRun<T>(cs: seq<Node<T>>, k: nat): seq<Node<T>>
    requires k + 1 < |cs|
  {
    cs[..k] + [Fused(cs[k], cs[k + 1])] + cs[k + 2..]
  }

  /** Merge child k with its next sibling when the two together are small enough. */
  method MergeWithNext<T>(node: InnerNode<T>, k: nat, ghost h: nat) returns (merged: bool)
    requires h > 0 && WF(node.Image(), h) && node.form.General? && k + 1 < |node.children|
    modifies node`form, node`children
    ensures WF(node.Image(), h) && node.form.General? && Elems(node.Image()) == old(Elems(node.Image()))
    ensures merged <==> NodeSize(old(node.children)[k]) + NodeSize(old(node.children)[k + 1]) < M * 3 / 4
    ensures !merged ==> node.children == old(node.children)
    ensures merged ==> node.children == FusedRun(old(node.children), k) && NodeSize(node.children[k]) >= 2
  {
    merged := NodeSize(node.children[k]) + NodeSize(node.children[k + 1]) < M * 3 / 4;
    if merged {
      var m := JoinChildren(node, k, h);
      MergedOk(node.form.offsets, node.children, node.total, h, k, m);
      ReplacePair(node, k, m);
    }
  }
}
