/** Bulk writes and bulk erases at sorted, unique positions (BPlusTree::set_many and erase_many). */
module BpMany {
  import opened BpNode
  import opened BpShape
  import opened BpInner
  import opened BpTree

  datatype Status = Ok | OutOfRange | NotSorted

  predicate SortedUnique(ps: seq<nat>) {
    forall i, j :: 0 <= i < j < |ps| ==> ps[i] < ps[j]
  }

  predicate InRange(ps: seq<nat>, size: nat) {
    forall i :: 0 <= i < |ps| ==> ps[i] < size
  }

  /** The checks made before anything is changed; the first offending entry decides the error. */
  method CheckPositions(ps: seq<nat>, size: nat) returns (r: Status)
    ensures r.Ok? <==> SortedUnique(ps) && InRange(ps, size)
    ensures r.OutOfRange? ==>
              exists i :: 0 <= i < |ps| && ps[i] >= size && SortedUnique(ps[..i]) && InRange(ps[..i], size)
    ensures r.NotSorted? ==>
              exists i :: 0 < i < |ps| && ps[i - 1] >= ps[i] && SortedUnique(ps[..i]) && InRange(ps[..i + 1], size)
  {
    for i := 0 to |ps|
      invariant SortedUnique(ps[..i]) && InRange(ps[..i], size)
    {
      if ps[i] >= size {
        return OutOfRange;
      }
      if i > 0 && ps[i - 1] >= ps[i] {
        assert ps[..i + 1] == ps[..i] + [ps[i]];
        return NotSorted;
      }
      assert forall a :: 0 <= a < i ==> ps[..i][a] <= ps[i - 1];
    }
    assert ps[..|ps|] == ps;
    r := Ok;
  }

  // ---- Erase ----

  /** The elements of s from index i on whose index is not in `drop`. */
  function Kept<T>(s: seq<T>, i: nat, drop: set<nat>): seq<T>
    requires i <= |s|
    decreases |s| - i
  {
    if i == |s| then [] else (if i in drop then [] else [s[i]]) + Kept(s, i + 1, drop)
  }

  lemma {:induction false} KeptAll<T>(s: seq<T>, i: nat, drop: set<nat>)
    requires i <= |s| && forall d :: d in drop ==> d < i
    ensures Kept(s, i, drop) == s[i..]
    decreases |s| - i
  {
    if i < |s| {
      assert i !in drop;
      KeptAll(s, i + 1, drop);
    }
  }

  /** Up to the lowest dropped index nothing has moved, so dropping one more below it is a plain cut. */
  lemma {:induction false} KeptCut<T>(s: seq<T>, i: nat, drop: set<nat>, p: nat)
    requires i <= p < |s| && forall d :: d in drop ==> d > p
    ensures p - i < |Kept(s, i, drop)|
    ensures Kept(s, i, drop + {p}) == Cut(Kept(s, i, drop), p - i)
    decreases |s| - i
  {
    var rest := Kept(s, i + 1, drop);
    if i == p {
      KeptSame(s, i + 1, drop, drop + {p});
      assert Cut([s[i]] + rest, 0) == rest;
    } else {
      KeptCut(s, i + 1, drop, p);
      assert i !in drop + {p};
      assert [s[i]] + Cut(rest, p - i - 1) == Cut([s[i]] + rest, p - i);
    }
  }

  lemma {:induction false} KeptSame<T>(s: seq<T>, i: nat, a: set<nat>, b: set<nat>)
    requires i <= |s| && forall d :: d >= i ==> (d in a <==> d in b)
    ensures Kept(s, i, a) == Kept(s, i, b)
    decreases |s| - i
  {
    if i < |s| {
      assert i in a <==> i in b;
      KeptSame(s, i + 1, a, b);
    }
  }

  function AsSet(ps: seq<nat>): set<nat> {
    set p | p in ps
  }

  ghost function From(ps: seq<nat>, i: nat): set<nat>
    requires i <= |ps|
  {
    set k | i <= k < |ps| :: ps[k]
  }

  /** The root after the positions from entry i on were erased, the last one first. */
  ghost function ShrunkDownTo<T>(n: Node<T>, ps: seq<nat>, i: nat): Node<T>
    requires i <= |ps|
    decreases |ps| - i
  {
    if i == |ps| then n else
      var rest := ShrunkDownTo(n, ps, i + 1);
      if ps[i] < |Elems(rest)| then ShrunkRoot(rest, ps[i]) else rest
  }

  /** Erasing from the highest position down removes exactly the positions named, counted before any erase. */
  method EraseMany<T>(t: BPlusTree<T>, ps: seq<nat>) returns (r: Status)
    requires t.Valid()
    modifies t
    ensures t.Valid()
    ensures r.Ok? <==> SortedUnique(ps) && InRange(ps, old(t.size))
    ensures !r.Ok? ==> t.root == old(t.root)
    ensures r.Ok? ==> t.Contents() == Kept(old(t.Contents()), 0, AsSet(ps))
    ensures r.Ok? ==> t.root == ShrunkDownTo(old(t.root), ps, 0)
  {
    r := CheckPositions(ps, t.size);
    if !r.Ok? {
      return;
    }
    ghost var before := t.Contents();
    KeptAll(before, 0, From(ps, |ps|));
    var i := |ps|;
    while i > 0
      invariant 0 <= i <= |ps| && t.Valid()
      invariant t.Contents() == Kept(before, 0, From(ps, i))
      invariant t.root == ShrunkDownTo(old(t.root), ps, i)
    {
      i := i - 1;
      EraseNext(t, ps, i, before, old(t.root));
    }
    assert From(ps, 0) == AsSet(ps);
  }

  /** Erase the position that entry i names, those behind it being gone. */
  method EraseNext<T>(t: BPlusTree<T>, ps: seq<nat>, i: nat, ghost before: seq<T>, ghost was: Node<T>)
    requires t.Valid() && i < |ps| && SortedUnique(ps) && InRange(ps, |before|)
    requires t.Contents() == Kept(before, 0, From(ps, i + 1)) && t.root == ShrunkDownTo(was, ps, i + 1)
    modifies t
    ensures t.Valid() && t.Contents() == Kept(before, 0, From(ps, i)) && t.root == ShrunkDownTo(was, ps, i)
  {
    KeptCut(before, 0, From(ps, i + 1), ps[i]);
    assert From(ps, i) == From(ps, i + 1) + {ps[i]};
    t.Erase(ps[i]);
  }

  // ---- Set ----

  /** s', which starts at position `off`, is s with the values written that fall into it. */
  ghost predicate Wrote<T>(s: seq<T>, s': seq<T>, off: nat, ps: seq<nat>, vs: seq<T>)
    requires |ps| == |vs|
  {
    && |s'| == |s|
    && (forall i :: 0 <= i < |ps| && off <= ps[i] < off + |s| ==> s'[ps[i] - off] == vs[i])
    && (forall j :: 0 <= j < |s| && off + j !in ps ==> s'[j] == s[j])
  }

  /** `next` is the first of the sorted positions that is not below `at`. */
  ghost predicate FirstFrom(ps: seq<nat>, next: nat, at: nat) {
    && next <= |ps|
    && (forall i :: 0 <= i < next ==> ps[i] < at)
    && (forall i :: next <= i < |ps| ==> ps[i] >= at)
  }

  lemma {:induction false} WroteAppend<T>(a: seq<T>, a': seq<T>, b: seq<T>, b': seq<T>, off: nat, ps: seq<nat>,
                                          vs: seq<T>)
    requires |ps| == |vs| && Wrote(a, a', off, ps, vs) && Wrote(b, b', off + |a|, ps, vs)
    ensures Wrote(a + b, a' + b', off, ps, vs)
  {
    forall i | 0 <= i < |ps| && off <= ps[i] < off + |a + b| ensures (a' + b')[ps[i] - off] == vs[i] {
    }
    forall j | 0 <= j < |a + b| && off + j !in ps ensures (a' + b')[j] == (a + b)[j] {
      if j >= |a| {
        assert off + |a| + (j - |a|) !in ps;
      }
    }
  }

  method LeafSetMany<T>(leaf: seq<T>, off: nat, ps: seq<nat>, vs: seq<T>, next: nat) returns (leaf': seq<T>, next': nat)
    requires |ps| == |vs| && SortedUnique(ps) && FirstFrom(ps, next, off)
    ensures Wrote(leaf, leaf', off, ps, vs) && FirstFrom(ps, next', off + |leaf|)
  {
    leaf', next' := leaf, next;
    while next' < |ps| && ps[next'] < off + |leaf|
      invariant next <= next' <= |ps| && |leaf'| == |leaf|
      invariant forall i :: 0 <= i < next' ==> ps[i] < off + |leaf|
      invariant forall i :: next <= i < next' ==> leaf'[ps[i] - off] == vs[i]
      invariant forall j :: 0 <= j < |leaf| && off + j !in ps ==> leaf'[j] == leaf[j]
    {
      leaf' := leaf'[ps[next'] - off := vs[next']];
      next' := next' + 1;
    }
  }

  /** Two runs of children whose entries agree in everything but the elements. */
  ghost predicate SameShape<T>(cs: seq<Node<T>>, cs': seq<Node<T>>) {
    && |cs'| == |cs|
    && (forall i :: 0 <= i < |cs| ==> |Elems(cs'[i])| == |Elems(cs[i])| && Alike(cs[i], cs'[i]))
  }

  lemma {:induction false} SameShapeOff<T>(cs: seq<Node<T>>, cs': seq<Node<T>>, k: nat)
    requires SameShape(cs, cs') && k <= |cs|
    ensures Off(cs', k) == Off(cs, k)
  {
    if k > 0 {
      SameShapeOff(cs, cs', k - 1);
      OffStep(cs, k - 1);
      OffStep(cs', k - 1);
    }
  }

  lemma {:induction false} SameShapeOk<T>(form: Form, cs: seq<Node<T>>, cs': seq<Node<T>>, total: nat, h: nat)
    requires h > 0 && WF(Inner(form, cs, total), h) && AllWF(cs', h - 1) && SameShape(cs, cs')
    ensures WF(Inner(form, cs', total), h)
  {
    SameShapeOff(cs, cs', |cs|);
    OffEnd(cs);
    OffEnd(cs');
    forall k | 0 <= k <= |cs| ensures Off(cs', k) == Off(cs, k) {
      SameShapeOff(cs, cs', k);
    }
  }

  /** The traversal stops as soon as the last position has been written. */
  method InnerSetMany<T>(t: BPlusTree<T>, node: InnerNode<T>, ps: seq<nat>, vs: seq<T>, next: nat, off: nat,
                         ghost h: nat)
    returns (next': nat)
    requires WF(node.Image(), h) && |ps| == |vs| && SortedUnique(ps) && FirstFrom(ps, next, off)
    modifies t`cachedBegin, t`cachedEnd, t`cachedLeaf, node`children
    ensures WF(node.Image(), h) && Alike(old(node.Image()), node.Image())
    ensures Wrote(old(Elems(node.Image())), Elems(node.Image()), off, ps, vs)
    ensures FirstFrom(ps, next', off + node.total)
    decreases h, 0, 1
  {
    var cs := node.children;
    var out: seq<Node<T>> := [];
    next' := next;
    while |out| < |cs|
      invariant node.children == cs && Visited(cs, out, off, ps, vs, next', h - 1)
    {
      var child';
      child', next' := VisitChild(t, node, cs, out, ps, vs, next', off, h);
      out := out + [child'];
      if next' == |ps| {
        break;
      }
    }
    RestUnchanged(node.form, cs, node.total, out, off, ps, vs, h, next');
    node.children := out + cs[|out|..];
  }

  /** Visit the child behind those in `out`. */
  method VisitChild<T>(t: BPlusTree<T>, node: InnerNode<T>, cs: seq<Node<T>>, out: seq<Node<T>>, ps: seq<nat>,
                       vs: seq<T>, next: nat, off: nat, ghost h: nat)
    returns (child': Node<T>, next': nat)
    requires WF(node.Image(), h) && h > 0 && cs == node.children && |out| < |cs| && |ps| == |vs| && SortedUnique(ps)
    requires Visited(cs, out, off, ps, vs, next, h - 1)
    modifies t`cachedBegin, t`cachedEnd, t`cachedLeaf
    ensures Visited(cs, out + [child'], off, ps, vs, next', h - 1)
    decreases h, 0, 0
  {
    var i := |out|;
    AllWFAt(cs, h - 1, i);
    StartIsOff(node.form, cs, h, i);
    child', next' := ChildSetMany(t, cs[i], ps, vs, next, node.Start(i) + off, h - 1);
    OneMoreChild(cs, out, child', off, ps, vs, next, next', h - 1);
  }

  method ChildSetMany<T>(t: BPlusTree<T>, child: Node<T>, ps: seq<nat>, vs: seq<T>, next: nat, off: nat, ghost h: nat)
    returns (child': Node<T>, next': nat)
    requires WF(child, h) && |ps| == |vs| && SortedUnique(ps) && FirstFrom(ps, next, off)
    modifies t`cachedBegin, t`cachedEnd, t`cachedLeaf
    ensures WF(child', h) && Alike(child, child')
    ensures Wrote(Elems(child), Elems(child'), off, ps, vs)
    ensures FirstFrom(ps, next', off + |Elems(child)|)
    decreases h, 1, 0
  {
    if child.Leaf? {
      t.CacheLeaf(child.elems, off);
      t.cachedLeaf, next' := LeafSetMany(child.elems, off, ps, vs, next);
      child' := Leaf(t.cachedLeaf);
    } else {
      var inner := new InnerNode<T>.FromImage(child);
      next' := InnerSetMany(t, inner, ps, vs, next, off, h);
      child' := inner.Image();
    }
  }

  /** The children `out` have been visited in place of the first of `cs`, and `next` is the next position to write. */
  ghost predicate Visited<T>(cs: seq<Node<T>>, out: seq<Node<T>>, off: nat, ps: seq<nat>, vs: seq<T>, next: nat, h: nat)
    requires |ps| == |vs|
  {
    && |out| <= |cs| && AllWF(out, h) && SameShape(cs[..|out|], out)
    && Wrote(Flat(cs[..|out|]), Flat(out), off, ps, vs)
    && FirstFrom(ps, next, off + Off(cs, |out|))
  }

  lemma {:induction false} OneMoreChild<T>(cs: seq<Node<T>>, out: seq<Node<T>>, c: Node<T>, off: nat, ps: seq<nat>,
                                           vs: seq<T>, next: nat, next': nat, h: nat)
    requires |ps| == |vs| && Visited(cs, out, off, ps, vs, next, h) && |out| < |cs| && WF(c, h)
    requires Wrote(Elems(cs[|out|]), Elems(c), off + Off(cs, |out|), ps, vs) && Alike(cs[|out|], c)
    requires FirstFrom(ps, next', off + Off(cs, |out|) + |Elems(cs[|out|])|)
    ensures Visited(cs, out + [c], off, ps, vs, next', h)
  {
    var k := |out|;
    AllWFAppend(out, [c], h);
    OffStep(cs, k);
    assert cs[..k + 1] == cs[..k] + [cs[k]];
    FlatAppend(cs[..k], [cs[k]]);
    FlatAppend(out, [c]);
    FlatOne(cs[k]);
    FlatOne(c);
    WroteAppend(Flat(cs[..k]), Flat(out), Elems(cs[k]), Elems(c), off, ps, vs);
  }

  /** Either every child was visited or no position is left for the rest. */
  lemma {:induction false} RestUnchanged<T>(form: Form, cs: seq<Node<T>>, total: nat, out: seq<Node<T>>, off: nat,
                                            ps: seq<nat>, vs: seq<T>, h: nat, next: nat)
    requires h > 0 && WF(Inner(form, cs, total), h)
    requires |ps| == |vs| && Visited(cs, out, off, ps, vs, next, h - 1)
    requires |out| == |cs| || next == |ps|
    ensures var cs' := out + cs[|out|..];
            WF(Inner(form, cs', total), h) && SameShape(cs, cs') && Wrote(Flat(cs), Flat(cs'), off, ps, vs)
    ensures FirstFrom(ps, next, off + |Flat(cs)|)
  {
    var k := |out|;
    AllWFSub(cs, h - 1, k, |cs|);
    AllWFAppend(out, cs[k..], h - 1);
    forall i | k <= i < |cs| ensures Alike(cs[i], cs[i]) {
      AlikeItself(cs[i]);
    }
    SameShapeOk(form, cs, out + cs[k..], total, h);
    assert cs == cs[..k] + cs[k..];
    FlatAppend(cs[..k], cs[k..]);
    FlatAppend(out, cs[k..]);
    WroteAppend(Flat(cs[..k]), Flat(out), Flat(cs[k..]), Flat(cs[k..]), off, ps, vs);
  }

  method SetMany<T>(t: BPlusTree<T>, ps: seq<nat>, vs: seq<T>) returns (r: Status)
    requires t.Valid() && |ps| == |vs|
    modifies t
    ensures t.Valid()
    ensures r.Ok? <==> SortedUnique(ps) && InRange(ps, old(t.size))
    ensures !r.Ok? ==> t.root == old(t.root)
    ensures r.Ok? ==> Wrote(old(t.Contents()), t.Contents(), 0, ps, vs) && Alike(old(t.root), t.root)
  {
    AlikeItself(t.root);
    if |ps| == 0 {
      return Ok;
    }
    r := CheckPositions(ps, t.size);
    if !r.Ok? {
      return;
    }
    if t.root.Leaf? {
      var leaf, _ := LeafSetMany(t.root.elems, 0, ps, vs, 0);
      t.root := Leaf(leaf);
    } else {
      var node := new InnerNode<T>.FromImage(t.root);
      var _ := InnerSetMany(t, node, ps, vs, 0, 0, t.height);
      t.root := node.Image();
    }
    t.InvalidateLeafCache();
  }
}
