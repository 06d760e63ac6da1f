/** The tree object: root, size and the one-leaf read cache (BPlusTreeBase and BPlusTree<T>). */
module BpTree {
  import opened Options
  import opened BpNode
  import opened BpShape
  import opened BpInner
  import opened BpErase

  const WORD: nat := 0x1_0000_0000_0000_0000
  const NPOS: nat := WORD - 1

  /** What each kind of insertion demands of the leaf it will reach. */
  ghost predicate Fits<T>(req: Insertion<T>, ndx: Option<nat>, n: Node<T>) {
    match req
    case One(_) => true
    case Tail(vs) => ndx.None? && |vs| >= 1 && |LastLeaf(n)| + |vs| <= M
    case NewLeaf(vs) => ndx.None? && 1 <= |vs| <= M && |LastLeaf(n)| == M
  }

  /** Outcome of an insertion into `n`: `n'`, and the part split off when there is one. */
  ghost predicate Inserted<T>(n: Node<T>, n': Node<T>, sib: Option<Node<T>>, offset: nat, size: nat, h: nat,
                              ndx: Option<nat>, values: seq<T>)
    requires Position(ndx, Elems(n)) <= |Elems(n)|
  {
    var all := Spliced(Elems(n), Position(ndx, Elems(n)), values);
    && WF(n', h)
    && (sib.None? ==> Elems(n') == all)
    && (sib.Some? ==>
          && WF(sib.value, h)
          && Elems(n') + Elems(sib.value) == all
          && offset == |Elems(n')| && size == |all|)
    && (ndx.None? ==> IsCompact(n') == IsCompact(n))
    && (ndx.None? && IsCompact(n) && sib.Some? ==> IsCompact(sib.value) && offset == Pow(h + 1))
    && (n.Inner? && sib.None? ==> n'.Inner? && |n'.children| >= |n.children|)
  }

  /** Outcome of erasing position p below `n`; a size of zero says that nothing is left and `n'` is to be dropped. */
  ghost predicate Erased<T>(n: Node<T>, n': Node<T>, size: nat, h: nat, p: nat)
    requires p < |Elems(n)|
  {
    && (size == 0 <==> |Elems(n)| == 1)
    && (size > 0 ==> WF(n', h) && Elems(n') == Cut(Elems(n), p) && size == NodeSize(n'))
    && Shrunk(n, p) == if size == 0 then None else Some(n')
  }

  /** The cached leaf is the stretch [begin, end) of `s`, which itself starts at `off`. */
  ghost predicate Caches<T>(begin: nat, end: nat, leaf: seq<T>, s: seq<T>, off: nat) {
    begin == NPOS || (off <= begin <= end <= off + |s| && leaf == s[begin - off..end - off])
  }

  lemma CacheLift<T>(begin: nat, end: nat, leaf: seq<T>, pre: seq<T>, s: seq<T>, post: seq<T>, off: nat)
    requires Caches(begin, end, leaf, s, off + |pre|)
    ensures Caches(begin, end, leaf, pre + s + post, off)
  {
    if begin != NPOS {
      assert (pre + s + post)[begin - off..end - off] == s[begin - off - |pre|..end - off - |pre|];
    }
  }

  /** Splicing into one child splices into the whole. */
  lemma SpliceLift<T>(pre: seq<T>, s: seq<T>, post: seq<T>, p: nat, values: seq<T>)
    requires p <= |s|
    ensures Spliced(pre + s + post, |pre| + p, values) == pre + Spliced(s, p, values) + post
  {
    var w := pre + s + post;
    assert w[..|pre| + p] == pre + s[..p];
    assert w[|pre| + p..] == s[p..] + post;
  }

  /** What an insertion into child k means for the whole run. */
  lemma {:induction false} LiftInsert<T>(begin: nat, end: nat, leaf: seq<T>, cs: seq<Node<T>>, k: nat, p: nat,
                                         values: seq<T>, off: nat, pos: nat)
    requires k < |cs| && p <= |Elems(cs[k])| && pos == Off(cs, k) + p
    requires Caches(begin, end, leaf, Spliced(Elems(cs[k]), p, values), off + Off(cs, k))
    ensures pos <= |Flat(cs)|
    ensures Caches(begin, end, leaf, Spliced(Flat(cs), pos, values), off)
  {
    FlatAt(cs, k);
    SpliceLift(Flat(cs[..k]), Elems(cs[k]), Flat(cs[k + 1..]), p, values);
    CacheLift(begin, end, leaf, Flat(cs[..k]), Spliced(Elems(cs[k]), p, values), Flat(cs[k + 1..]), off);
  }

  lemma CutLift<T>(pre: seq<T>, s: seq<T>, post: seq<T>, p: nat)
    requires p < |s|
    ensures Cut(pre + s + post, |pre| + p) == pre + Cut(s, p) + post
  {
    var w := pre + s + post;
    assert w[..|pre| + p] == pre + s[..p];
    assert w[|pre| + p + 1..] == s[p + 1..] + post;
  }

  /** What erasing from child k means for the whole run. */
  lemma {:induction false} LiftErase<T>(cs: seq<Node<T>>, k: nat, p: nat)
    requires k < |cs| && p < |Elems(cs[k])|
    ensures Off(cs, k) + p < |Flat(cs)|
    ensures Cut(Flat(cs), Off(cs, k) + p) == Flat(cs[..k]) + Cut(Elems(cs[k]), p) + Flat(cs[k + 1..])
  {
    FlatAt(cs, k);
    CutLift(Flat(cs[..k]), Elems(cs[k]), Flat(cs[k + 1..]), p);
  }

  lemma {:induction false} LiftEraseCache<T>(begin: nat, end: nat, leaf: seq<T>, cs: seq<Node<T>>, k: nat, q: nat,
                                             off: nat, p: nat)
    requires k < |cs| && q < |Elems(cs[k])| && p == Off(cs, k) + q
    requires Caches(begin, end, leaf, Cut(Elems(cs[k]), q), off + Off(cs, k))
    ensures p < |Flat(cs)| && Caches(begin, end, leaf, Cut(Flat(cs), p), off)
  {
    LiftErase(cs, k, q);
    CacheLift(begin, end, leaf, Flat(cs[..k]), Cut(Elems(cs[k]), q), Flat(cs[k + 1..]), off);
  }

  class BPlusTree<T> {
    var root: Node<T>
    var size: nat
    var cachedBegin: nat
    var cachedEnd: nat
    var cachedLeaf: seq<T>
    ghost var height: nat

    /** Everything but the stored size. While the root is a leaf the cache holds nothing. */
    ghost predicate Sound()
      reads this
    {
      && RootWF(root, height)
      && |Elems(root)| <= NPOS
      && Caches(cachedBegin, cachedEnd, cachedLeaf, Elems(root), 0)
      && (root.Leaf? ==> cachedBegin == NPOS)
    }

    ghost predicate Valid()
      reads this
    {
      Sound() && size == |Elems(root)|
    }

    ghost function Contents(): seq<T>
      reads this
    {
      Elems(root)
    }

    constructor ()
      ensures Valid() && Contents() == [] && root == Leaf([])
    {
      root, size, height := Leaf([]), 0, 0;
      cachedBegin, cachedEnd, cachedLeaf := NPOS, NPOS, [];
    }

    method InvalidateLeafCache()
      modifies this`cachedBegin, this`cachedEnd
      ensures cachedBegin == cachedEnd == NPOS
    {
      cachedBegin, cachedEnd := NPOS, NPOS;
    }

    method AdjustLeafBounds(incr: int)
      modifies this`cachedEnd
      ensures cachedEnd == (old(cachedEnd) + incr) % WORD
    {
      cachedEnd := (cachedEnd + incr) % WORD;
    }

    method CacheLeaf(leaf: seq<T>, offset: nat)
      modifies this`cachedBegin, this`cachedEnd, this`cachedLeaf
      ensures cachedBegin == offset && cachedEnd == offset + |leaf| && cachedLeaf == leaf
    {
      cachedLeaf := leaf;
      cachedBegin, cachedEnd := offset, offset + |leaf|;
    }

    /** Leaf side of an insertion; `leaf'` is what the leaf holds afterwards. */
    method LeafInsert(leaf: seq<T>, ndx: Option<nat>, req: Insertion<T>)
      returns (leaf': seq<T>, sib: Option<Node<T>>, offset: nat, total: nat)
      requires |leaf| <= M && Position(ndx, leaf) <= |leaf| && Fits(req, ndx, Leaf(leaf))
      requires ndx.Some? ==> ndx.value < |leaf|
      modifies this`cachedBegin, this`cachedEnd
      ensures Inserted(Leaf(leaf), Leaf(leaf'), sib, offset, total, 0, ndx, Values(req))
      ensures (Leaf(leaf'), sib) == Grown(Leaf(leaf), ndx, req)
      ensures sib.None? ==> cachedBegin == old(cachedBegin) && cachedEnd == (old(cachedEnd) + |Values(req)|) % WORD
      ensures sib.Some? && ndx.None? ==>
                leaf' == leaf && cachedBegin == old(cachedBegin) && cachedEnd == old(cachedEnd)
      ensures sib.Some? && ndx.Some? ==> cachedBegin == NPOS
    {
      var p := Position(ndx, leaf);
      if req.NewLeaf? {
        return leaf, Some(Leaf(req.values)), |leaf|, |leaf| + |req.values|;
      }
      if |leaf| < M {
        AdjustLeafBounds(|Values(req)|);
        return Spliced(leaf, p, Values(req)), None, 0, 0;
      }
      total := |leaf| + 1;
      if p == |leaf| {
        return leaf, Some(Leaf([req.value])), p, total;
      }
      leaf', sib, offset := leaf[..p] + [req.value], Some(Leaf(leaf[p..])), p + 1;
      InvalidateLeafCache();
    }

    /** Insert into one child, cached when it is a leaf, entered through an accessor when it is not. */
    method ChildInsert(child: Node<T>, ndx: Option<nat>, req: Insertion<T>, off: nat, ghost h: nat)
      returns (child': Node<T>, sib: Option<Node<T>>, offset: nat, total: nat)
      requires WF(child, h) && Fits(req, ndx, child)
      requires ndx.Some? ==> ndx.value < |Elems(child)|
      requires off + |Elems(child)| + |Values(req)| <= NPOS
      modifies this`cachedBegin, this`cachedEnd, this`cachedLeaf
      ensures Inserted(child, child', sib, offset, total, h, ndx, Values(req))
      ensures (child', sib) == Grown(child, ndx, req)
      ensures Caches(cachedBegin, cachedEnd, cachedLeaf,
                     Spliced(Elems(child), Position(ndx, Elems(child)), Values(req)), off)
      decreases h, 2
    {
      if child.Leaf? {
        child', sib, offset, total := LeafChildInsert(child, ndx, req, off, h);
      } else {
        var node := new InnerNode<T>.FromImage(child);
        sib, offset, total := InnerInsert(node, ndx, req, off, h);
        child' := node.Image();
      }
    }

    method LeafChildInsert(child: Node<T>, ndx: Option<nat>, req: Insertion<T>, off: nat, ghost h: nat)
      returns (child': Node<T>, sib: Option<Node<T>>, offset: nat, total: nat)
      requires child.Leaf? && WF(child, h) && Fits(req, ndx, child)
      requires ndx.Some? ==> ndx.value < |Elems(child)|
      requires off + |Elems(child)| + |Values(req)| <= NPOS
      modifies this`cachedBegin, this`cachedEnd, this`cachedLeaf
      ensures Inserted(child, child', sib, offset, total, h, ndx, Values(req))
      ensures (child', sib) == Grown(child, ndx, req)
      ensures Caches(cachedBegin, cachedEnd, cachedLeaf,
                     Spliced(Elems(child), Position(ndx, Elems(child)), Values(req)), off)
    {
      CacheLeaf(child.elems, off);
      var leaf';
      leaf', sib, offset, total := LeafInsert(child.elems, ndx, req);
      ghost var all := Spliced(child.elems, Position(ndx, child.elems), Values(req));
      assert sib.None? ==> leaf' == all && cachedEnd == off + |leaf'|;
      assert sib.Some? && ndx.None? ==> leaf' == all[..|leaf'|] && cachedEnd == off + |leaf'|;
      cachedLeaf := leaf';
      child' := Leaf(leaf');
    }

    method InnerInsert(node: InnerNode<T>, ndx: Option<nat>, req: Insertion<T>, off: nat, ghost h: nat)
      returns (sib: Option<Node<T>>, offset: nat, total: nat)
      requires WF(node.Image(), h) && Fits(req, ndx, node.Image())
      requires ndx.Some? ==> ndx.value < node.total
      requires off + node.total + |Values(req)| <= NPOS
      modifies this`cachedBegin, this`cachedEnd, this`cachedLeaf, node
      ensures Inserted(old(node.Image()), node.Image(), sib, offset, total, h, ndx, Values(req))
      ensures (node.Image(), sib) == Grown(old(node.Image()), ndx, req)
      ensures Caches(cachedBegin, cachedEnd, cachedLeaf,
                     Spliced(old(Elems(node.Image())), Position(ndx, old(Elems(node.Image()))), Values(req)), off)
      decreases h, 1
    {
      ghost var image := node.Image();
      var k, childOff, childNdx := node.LocateInsert(ndx, h);
      sib, offset, total := InsertUnder(node, k, childOff, childNdx, req, off, h, image, ndx);
    }

    /** Insert into child k and record in `node` what that did. */
    method InsertUnder(node: InnerNode<T>, k: nat, childOff: nat, childNdx: Option<nat>, req: Insertion<T>, off: nat,
                       ghost h: nat, ghost image: Node<T>, ghost ndx: Option<nat>)
      returns (sib: Option<Node<T>>, offset: nat, total: nat)
      requires Located(image, node.Image(), h, k, ndx, childNdx) && childOff == Off(node.children, k)
      requires Fits(req, childNdx, node.children[k]) && off + node.total + |Values(req)| <= NPOS
      modifies this`cachedBegin, this`cachedEnd, this`cachedLeaf, node
      ensures Position(ndx, Elems(image)) <= |Elems(image)| && (ndx.Some? ==> ndx.value < |Elems(image)|)
      ensures Inserted(image, node.Image(), sib, offset, total, h, ndx, Values(req))
      ensures (node.Image(), sib) == Grown(image, ndx, req)
      ensures Caches(cachedBegin, cachedEnd, cachedLeaf,
                     Spliced(Elems(image), Position(ndx, Elems(image)), Values(req)), off)
      decreases h, 0
    {
      ghost var cs := node.children;
      ghost var pos, p := Position(ndx, Elems(image)), Position(childNdx, Elems(cs[k]));
      InsertAt(image, node.Image(), h, ndx, k, childNdx, req);
      var child', childSib, childOffset, childTotal := ChildInsert(node.children[k], childNdx, req, childOff + off,
                                                                   h - 1);
      LiftInsert(cachedBegin, cachedEnd, cachedLeaf, cs, k, p, Values(req), off, pos);
      sib, offset, total := Absorb(node, k, child', childSib, childOffset, childTotal, childNdx, Values(req), h, image,
                                   ndx);
    }

    /** Record in `node` what an insertion did to its child k. */
    method Absorb(node: InnerNode<T>, k: nat, child': Node<T>, childSib: Option<Node<T>>, childOffset: nat,
                  childTotal: nat, childNdx: Option<nat>, values: seq<T>, ghost h: nat, ghost image: Node<T>,
                  ghost ndx: Option<nat>)
      returns (sib: Option<Node<T>>, offset: nat, total: nat)
      requires Located(image, node.Image(), h, k, ndx, childNdx) && (ndx.Some? ==> |values| == 1)
      requires Inserted(node.children[k], child', childSib, childOffset, childTotal, h - 1, childNdx, values)
      modifies node
      ensures Position(ndx, Elems(image)) <= |Elems(image)|
      ensures Inserted(image, node.Image(), sib, offset, total, h, ndx, values)
      ensures (node.Image(), sib) == Regrown(NextForm(image, ndx), image.children, k, child', childSib)
    {
      ghost var cs := node.children;
      AbsorbedContent(image, k, ndx, childNdx, values);
      node.children := node.children[k := child'];
      if childSib.None? {
        node.ChildChanged(k, |values|, cs, h);
        return None, 0, 0;
      }
      sib, offset, total := node.InsertBpNode(k, childSib.value, |values|, childOffset, childTotal, cs, h);
    }

    method BptreeInsert(n: nat, req: Insertion<T>)
      requires Sound() && (n <= |Elems(root)| || n == NPOS)
      requires |Elems(root)| + |Values(req)| <= NPOS
      requires Fits(req, if n < |Elems(root)| then Some(n) else None, root)
      modifies this`root, this`height, this`cachedBegin, this`cachedEnd, this`cachedLeaf
      ensures Sound()
      ensures Contents()
           == Spliced(old(Contents()), if n < |old(Contents())| then n else |old(Contents())|, Values(req))
      ensures root == GrownRoot(old(root), if n < |old(Contents())| then Some(n) else None, req)
      ensures n >= |old(Contents())| && IsCompact(old(root)) ==> IsCompact(root)
    {
      var ndx := if n == TreeSize(root) || n == NPOS then None else Some(n);
      var root', sib, offset, total := RootInsert(ndx, req);
      root := root';
      if sib.Some? {
        GrowRoot(sib.value, offset, total, ndx.None? && IsCompact(root));
      }
    }

    /** Put a new root over the old root and the part split off from it. */
    method GrowRoot(sib: Node<T>, offset: nat, total: nat, compact: bool)
      requires WF(root, height) && WF(sib, height) && offset == |Elems(root)| && total == offset + |Elems(sib)|
      requires compact ==> IsCompact(root) && IsCompact(sib) && offset == Pow(height + 1)
      modifies this`root, this`height
      ensures RootWF(root, height) && root.Inner?
      ensures Elems(root) == old(Elems(root)) + Elems(sib) && IsCompact(root) == compact
      ensures root == Over(if compact then Compact(|Elems(old(root))|) else General([]), [old(root), sib])
    {
      WFNonEmpty(root, height);
      NewRootOk(root, sib, height, compact);
      var newRoot := new InnerNode<T>.Create(if compact then offset else 0);
      if !compact {
        newRoot.EnsureOffsets();
      }
      newRoot.AddBpNode(root, 0);
      newRoot.AddBpNode(sib, offset);
      newRoot.total := total;
      assert newRoot.children == [root, sib];
      OverItself(newRoot.Image(), height + 1, if compact then Compact(|Elems(root)|) else General([]));
      root := newRoot.Image();
      height := height + 1;
    }

    /** The insertion on the root node, whichever kind it is. */
    method RootInsert(ndx: Option<nat>, req: Insertion<T>)
      returns (root': Node<T>, sib: Option<Node<T>>, offset: nat, total: nat)
      requires Sound() && Fits(req, ndx, root) && |Elems(root)| + |Values(req)| <= NPOS
      requires ndx.Some? ==> ndx.value < |Elems(root)|
      modifies this`cachedBegin, this`cachedEnd, this`cachedLeaf
      ensures Inserted(root, root', sib, offset, total, height, ndx, Values(req))
      ensures (root', sib) == Grown(root, ndx, req)
      ensures root.Leaf? ==> cachedBegin == NPOS
      ensures root.Inner? && sib.None? ==> root'.Inner? && |root'.children| >= 2
      ensures Caches(cachedBegin, cachedEnd, cachedLeaf, Spliced(Elems(root), Position(ndx, Elems(root)), Values(req)),
                     0)
    {
      if root.Leaf? {
        var leaf';
        leaf', sib, offset, total := LeafInsert(root.elems, ndx, req);
        root' := Leaf(leaf');
      } else {
        var node := new InnerNode<T>.FromImage(root);
        sib, offset, total := InnerInsert(node, ndx, req, 0, height);
        root' := node.Image();
      }
    }

    // ---- Erase ----

    method ChildErase(child: Node<T>, p: nat, off: nat, ghost h: nat) returns (child': Node<T>, left: nat)
      requires WF(child, h) && p < |Elems(child)| && off + |Elems(child)| <= NPOS
      modifies this`cachedBegin, this`cachedEnd, this`cachedLeaf
      ensures Erased(child, child', left, h, p)
      ensures left == 0 ==> cachedBegin == NPOS
      ensures left > 0 ==> Caches(cachedBegin, cachedEnd, cachedLeaf, Cut(Elems(child), p), off)
      decreases h, 2
    {
      if child.Leaf? {
        CacheLeaf(child.elems, off);
        cachedLeaf := Cut(cachedLeaf, p);
        child', left := Leaf(cachedLeaf), |cachedLeaf|;
        if left == 0 {
          InvalidateLeafCache();
        } else {
          AdjustLeafBounds(-1);
        }
      } else {
        var node := new InnerNode<T>.FromImage(child);
        left := InnerErase(node, p, off, h);
        child' := node.Image();
      }
    }

    /** Erase position p in child k, which holds it. */
    method EraseUnder(node: InnerNode<T>, k: nat, childOff: nat, p: nat, off: nat, ghost h: nat)
      returns (child': Node<T>, left: nat)
      requires h > 0 && WF(node.Image(), h) && p < node.total && off + node.total <= NPOS
      requires k < |node.children| && childOff == Off(node.children, k)
      requires childOff <= p < childOff + |Elems(node.children[k])|
      modifies this`cachedBegin, this`cachedEnd, this`cachedLeaf
      ensures Erased(node.children[k], child', left, h - 1, p - childOff)
      ensures left == 0 ==> cachedBegin == NPOS
      ensures left > 0 ==> Caches(cachedBegin, cachedEnd, cachedLeaf, Cut(Elems(node.Image()), p), off)
      decreases h, 0
    {
      ghost var cs := node.children;
      AllWFAt(cs, h - 1, k);
      FlatAt(cs, k);
      child', left := ChildErase(node.children[k], p - childOff, childOff + off, h - 1);
      if left > 0 {
        LiftEraseCache(cachedBegin, cachedEnd, cachedLeaf, cs, k, p - childOff, off, p);
      }
    }

    method InnerErase(node: InnerNode<T>, p: nat, off: nat, ghost h: nat) returns (left: nat)
      requires WF(node.Image(), h) && p < node.total && off + node.total <= NPOS
      modifies this`cachedBegin, this`cachedEnd, this`cachedLeaf, node
      ensures Erased(old(node.Image()), node.Image(), left, h, p)
      ensures left == 0 ==> cachedBegin == NPOS
      ensures left > 0 ==> Caches(cachedBegin, cachedEnd, cachedLeaf, Cut(old(Elems(node.Image())), p), off)
      ensures left == 1 < |old(node.children)| ==>
                cachedBegin == NPOS || (node.children[0].Inner? && |node.children[0].children| >= 2)
      decreases h, 1
    {
      ghost var image := node.Image();
      node.EnsureOffsets();
      var k, childOff := node.FindChild(p, h);
      ghost var cs := node.children;
      var child', childLeft := EraseUnder(node, k, childOff, p, off, h);
      var merged;
      left, merged := AbsorbErase(node, k, child', childLeft, h, image, p - childOff, p);
      if merged && child'.Leaf? {
        InvalidateLeafCache();
      }
    }

    method BptreeErase(p: nat)
      requires Sound() && p < |Elems(root)|
      modifies this`root, this`height, this`cachedBegin, this`cachedEnd, this`cachedLeaf
      ensures Sound() && Contents() == Cut(old(Contents()), p) && root == ShrunkRoot(old(root), p)
    {
      if root.Leaf? {
        root := Leaf(Cut(root.elems, p));
        return;
      }
      var node := new InnerNode<T>.FromImage(root);
      InnerRootSize(root, height);
      var rootSize := InnerErase(node, p, 0, height);
      root := node.Image();
      while root.Inner? && rootSize == 1
        invariant WF(root, height) && rootSize == NodeSize(root)
        invariant Elems(root) == Cut(old(Contents()), p)
        invariant Collapsed(root) == ShrunkRoot(old(root), p)
        invariant cachedBegin == NPOS || (root.Inner? && OneLevelWide(root))
        invariant Caches(cachedBegin, cachedEnd, cachedLeaf, Elems(root), 0)
        decreases height
      {
        AllWFAt(root.children, height - 1, 0);
        FlatOne(root.children[0]);
        assert root.children == [root.children[0]];
        root, height := root.children[0], height - 1;
        rootSize := NodeSize(root);
      }
    }

    // ---- Reading and writing one element ----

    /** The leaf that holds position p and the place in it; a leaf below an inner root becomes the cached one. */
    method AccessLeaf(p: nat) returns (leaf: seq<T>, i: nat)
      requires Sound() && p < |Elems(root)|
      modifies this`cachedBegin, this`cachedEnd, this`cachedLeaf
      ensures Sound()
      ensures i < |leaf| && leaf[i] == Contents()[p]
      ensures p == |Contents()| - 1 ==> leaf == LastLeaf(root)
      ensures root.Inner? ==> cachedBegin <= p < cachedEnd && cachedLeaf == leaf
    {
      if root.Leaf? {
        return root.elems, p;
      }
      var node := new InnerNode<T>.FromImage(root);
      leaf, i := InnerAccess(node, p, 0, height);
    }

    method InnerAccess(node: InnerNode<T>, p: nat, off: nat, ghost h: nat) returns (leaf: seq<T>, i: nat)
      requires WF(node.Image(), h) && p < node.total && off + node.total <= NPOS
      modifies this`cachedBegin, this`cachedEnd, this`cachedLeaf
      ensures i < |leaf| && leaf[i] == Elems(node.Image())[p]
      ensures p == node.total - 1 ==> leaf == LastLeaf(node.Image())
      ensures cachedBegin <= off + p < cachedEnd && cachedLeaf == leaf
      ensures Caches(cachedBegin, cachedEnd, cachedLeaf, Elems(node.Image()), off)
      decreases h
    {
      var k, childOff := node.FindChild(p, h);
      ghost var cs := node.children;
      var child := node.children[k];
      ChildHolds(cs, h - 1, k, p);
      if child.Leaf? {
        CacheLeaf(child.elems, childOff + off);
        leaf, i := cachedLeaf, p - childOff;
      } else {
        var inner := new InnerNode<T>.FromImage(child);
        leaf, i := InnerAccess(inner, p - childOff, childOff + off, h - 1);
      }
      LiftCache(cachedBegin, cachedEnd, cachedLeaf, cs, k, off);
    }

    method Get(p: nat) returns (value: T)
      requires Valid() && p < size
      modifies this`cachedBegin, this`cachedEnd, this`cachedLeaf
      ensures Valid() && value == Contents()[p]
      ensures root.Inner? ==> cachedBegin <= p < cachedEnd
    {
      if cachedBegin <= p < cachedEnd {
        value := cachedLeaf[p - cachedBegin];
      } else {
        var leaf, i := AccessLeaf(p);
        value := leaf[i];
      }
    }

    method Set(p: nat, value: T)
      requires Valid() && p < size
      modifies this`root, this`cachedBegin, this`cachedEnd, this`cachedLeaf
      ensures Valid() && Contents() == old(Contents())[p := value] && root == Written(old(root), p, value)
    {
      if root.Leaf? {
        root := Leaf(root.elems[p := value]);
      } else {
        var node := new InnerNode<T>.FromImage(root);
        InnerSet(node, p, value, 0, height);
        root := node.Image();
      }
    }

    /** The leaf is written through the cache, so cache and tree change together. */
    method InnerSet(node: InnerNode<T>, p: nat, value: T, off: nat, ghost h: nat)
      requires WF(node.Image(), h) && p < node.total && off + node.total <= NPOS
      modifies this`cachedBegin, this`cachedEnd, this`cachedLeaf, node`children
      ensures WF(node.Image(), h) && |node.children| == |old(node.children)|
      ensures Elems(node.Image()) == old(Elems(node.Image()))[p := value]
      ensures node.Image() == Written(old(node.Image()), p, value)
      ensures IsCompact(node.Image()) == old(IsCompact(node.Image()))
      ensures Caches(cachedBegin, cachedEnd, cachedLeaf, Elems(node.Image()), off)
      decreases h, 0
    {
      var k, childOff := node.FindChild(p, h);
      ghost var cs := node.children;
      WriteAt(node.Image(), h, k, p, value);
      var child' := ChildSet(node.children[k], p - childOff, value, childOff + off, h - 1);
      SameSizeChild(node.form, cs, node.total, h, k, child', p, value);
      node.children := node.children[k := child'];
      LiftCache(cachedBegin, cachedEnd, cachedLeaf, node.children, k, off);
    }

    method ChildSet(child: Node<T>, p: nat, value: T, off: nat, ghost h: nat) returns (child': Node<T>)
      requires WF(child, h) && p < |Elems(child)| && off + |Elems(child)| <= NPOS
      modifies this`cachedBegin, this`cachedEnd, this`cachedLeaf
      ensures WF(child', h) && Elems(child') == Elems(child)[p := value] && IsCompact(child') == IsCompact(child)
      ensures child' == Written(child, p, value)
      ensures Caches(cachedBegin, cachedEnd, cachedLeaf, Elems(child'), off)
      decreases h, 1
    {
      if child.Leaf? {
        CacheLeaf(child.elems, off);
        cachedLeaf := cachedLeaf[p := value];
        child' := Leaf(cachedLeaf);
      } else {
        var inner := new InnerNode<T>.FromImage(child);
        InnerSet(inner, p, value, off, h);
        child' := inner.Image();
      }
    }

    // ---- Public mutators ----

    method Insert(n: nat, value: T)
      requires Valid() && size < NPOS && (n <= size || n == NPOS)
      modifies this
      ensures Valid()
      ensures Contents() == Spliced(old(Contents()), if n <= |old(Contents())| then n else |old(Contents())|, [value])
      ensures root == GrownRoot(old(root), if n < old(size) then Some(n) else None, One(value))
      ensures n >= old(size) && IsCompact(old(root)) ==> IsCompact(root)
    {
      BptreeInsert(n, One(value));
      size := size + 1;
    }

    method Add(value: T)
      requires Valid() && size < NPOS
      modifies this
      ensures Valid() && Contents() == old(Contents()) + [value]
      ensures root == GrownRoot(old(root), None, One(value))
      ensures IsCompact(old(root)) ==> IsCompact(root)
    {
      Insert(NPOS, value);
    }

    method Erase(p: nat)
      requires Valid() && p < size
      modifies this
      ensures Valid() && Contents() == Cut(old(Contents()), p) && root == ShrunkRoot(old(root), p)
    {
      BptreeErase(p);
      size := size - 1;
    }

    method Clear()
      requires Valid()
      modifies this
      ensures Valid() && Contents() == [] && root == Leaf([])
    {
      if root.Inner? {
        InvalidateLeafCache();
        height := 0;
      }
      root := Leaf([]);
      size := 0;
    }
  }

  /** Writing position p, seen from the child k that holds it. */
  lemma {:induction false} WriteAt<T>(image: Node<T>, h: nat, k: nat, p: nat, value: T)
    requires image.Inner? && WF(image, h) && k < |image.children|
    requires Off(image.children, k) <= p < Off(image.children, k) + |Elems(image.children[k])|
    ensures var cs, off := image.children, Off(image.children, k);
            && WF(cs[k], h - 1) && off + |Elems(cs[k])| <= |Flat(cs)|
            && Written(image, p, value) == Inner(image.form, cs[k := Written(cs[k], p - off, value)], image.total)
  {
    AllWFAt(image.children, h - 1, k);
    FlatAt(image.children, k);
    PlaceAt(image.children, k, p);
  }

  /** Child k was replaced by one that differs in a single element. */
  lemma {:induction false} SameSizeChild<T>(form: Form, cs: seq<Node<T>>, total: nat, h: nat, k: nat, c: Node<T>,
                                            p: nat, value: T)
    requires h > 0 && WF(Inner(form, cs, total), h) && WF(c, h - 1) && k < |cs|
    requires Off(cs, k) <= p < Off(cs, k) + |Elems(cs[k])| <= |Flat(cs)|
    requires Elems(c) == Elems(cs[k])[p - Off(cs, k) := value] && IsCompact(c) == IsCompact(cs[k])
    ensures WF(Inner(form, cs[k := c], total), h) && Flat(cs[k := c]) == Flat(cs)[p := value]
    ensures Off(cs[k := c], k) == Off(cs, k)
  {
    SameSizeFlat(cs, k, c, p, value);
    AllWFSplice(cs, h - 1, k, k + 1, [c]);
    assert cs[k := c] == cs[..k] + [c] + cs[k + 1..];
    if form.General? {
      OffsetsReplace(cs, k, c, form.offsets, form.offsets);
    }
  }

  lemma {:induction false} SameSizeFlat<T>(cs: seq<Node<T>>, k: nat, c: Node<T>, p: nat, value: T)
    requires k < |cs| && Off(cs, k) <= p < Off(cs, k) + |Elems(cs[k])| <= |Flat(cs)|
    requires Elems(c) == Elems(cs[k])[p - Off(cs, k) := value]
    ensures Flat(cs[k := c]) == Flat(cs)[p := value] && Off(cs[k := c], k) == Off(cs, k)
  {
    FlatAt(cs, k);
    FlatUpdate(cs, k, c);
    OffUpdate(cs, k, c, k);
    UpdateMiddle(Flat(cs[..k]), Elems(cs[k]), Flat(cs[k + 1..]), p - Off(cs, k), value);
  }

  lemma UpdateMiddle<T>(pre: seq<T>, s: seq<T>, post: seq<T>, q: nat, value: T)
    requires q < |s|
    ensures (pre + s + post)[|pre| + q := value] == pre + s[q := value] + post
  {
  }

  /** A single child, if that is all there is, is itself an inner node with several children. */
  ghost predicate OneLevelWide<T>(n: Node<T>)
    requires n.Inner?
  {
    |n.children| == 1 ==> n.children[0].Inner? && |n.children[0].children| >= 2
  }

  lemma {:induction false} InnerRootSize<T>(n: Node<T>, h: nat)
    requires n.Inner? && RootWF(n, h)
    ensures |Elems(n)| >= 2
  {
    OffStrict(n.children, h - 1, 0, 1);
    OffStrict(n.children, h - 1, 1, |n.children|);
    OffEnd(n.children);
  }

  /** Reading position p through child k, which holds it; the last position is in the last child. */
  lemma {:induction false} ChildHolds<T>(cs: seq<Node<T>>, h: nat, k: nat, p: nat)
    requires AllWF(cs, h) && k < |cs| && Off(cs, k) <= p < Off(cs, k) + |Elems(cs[k])|
    ensures Off(cs, k) + |Elems(cs[k])| <= |Flat(cs)|
    ensures Flat(cs)[p] == Elems(cs[k])[p - Off(cs, k)]
    ensures p == |Flat(cs)| - 1 ==> k == |cs| - 1 && p - Off(cs, k) == |Elems(cs[k])| - 1
  {
    FlatAt(cs, k);
    OffStep(cs, k);
    OffEnd(cs);
    if k < |cs| - 1 {
      OffStrict(cs, h, k + 1, |cs|);
    }
  }

  lemma {:induction false} LiftCache<T>(begin: nat, end: nat, leaf: seq<T>, cs: seq<Node<T>>, k: nat, off: nat)
    requires k < |cs| && Caches(begin, end, leaf, Elems(cs[k]), off + Off(cs, k))
    ensures Caches(begin, end, leaf, Flat(cs), off)
  {
    FlatAt(cs, k);
    CacheLift(begin, end, leaf, Flat(cs[..k]), Elems(cs[k]), Flat(cs[k + 1..]), off);
  }

  /** Only appending keeps a compact node compact. */
  function NextForm<T>(image: Node<T>, ndx: Option<nat>): Form
    requires image.Inner?
  {
    if ndx.None? then image.form else General([])
  }

  /**
   * An insertion into `image` goes to its child k: the last one, or the one that holds the position. By then the node
   * is `now`, in general form unless it is appended to.
   */
  ghost predicate Located<T>(image: Node<T>, now: Node<T>, h: nat, k: nat, ndx: Option<nat>, childNdx: Option<nat>) {
    && h > 0 && image.Inner? && now.Inner? && WF(now, h) && k < |now.children|
    && image == Inner(image.form, now.children, now.total)
    && (ndx.None? <==> childNdx.None?)
    && (ndx.None? ==> image.form == now.form && k == |now.children| - 1)
    && (ndx.Some? ==>
          && now.form.General? && ndx.value == Off(now.children, k) + childNdx.value
          && childNdx.value < |Elems(now.children[k])|)
  }

  /** Where an insertion goes, and what it makes of the node, seen from the child k it goes to. */
  lemma {:induction false} InsertAt<T>(image: Node<T>, now: Node<T>, h: nat, ndx: Option<nat>, k: nat,
                                       childNdx: Option<nat>, req: Insertion<T>)
    requires Located(image, now, h, k, ndx, childNdx)
    ensures WF(image.children[k], h - 1) && (ndx.Some? ==> ndx.value < |Elems(image)|)
    ensures Off(image.children, k) + |Elems(image.children[k])| <= |Elems(image)|
    ensures Position(ndx, Elems(image)) == Off(image.children, k) + Position(childNdx, Elems(image.children[k]))
    ensures var (c, s) := Grown(image.children[k], childNdx, req);
            Grown(image, ndx, req) == Regrown(NextForm(image, ndx), image.children, k, c, s)
  {
    FlatAt(image.children, k);
    AllWFAt(image.children, h - 1, k);
    if ndx.Some? {
      PlaceAt(image.children, k, ndx.value);
    } else {
      assert image.children[k + 1..] == [];
    }
  }

  /** Inserting into a node is inserting into its child k. */
  lemma {:induction false} AbsorbedContent<T>(image: Node<T>, k: nat, ndx: Option<nat>, childNdx: Option<nat>,
                                              values: seq<T>)
    requires image.Inner? && k < |image.children| && (ndx.None? <==> childNdx.None?)
    requires (ndx.None? ==> k == |image.children| - 1)
    requires ndx.Some? ==>
               ndx.value == Off(image.children, k) + childNdx.value && childNdx.value < |Elems(image.children[k])|
    ensures var cs := image.children;
            var pos, p := Position(ndx, Elems(image)), Position(childNdx, Elems(cs[k]));
            && pos <= |Elems(image)| && p <= |Elems(cs[k])|
            && Spliced(Elems(image), pos, values) == Flat(cs[..k]) + Spliced(Elems(cs[k]), p,
                                                                             values) + Flat(cs[k + 1..])
  {
    var cs := image.children;
    FlatAt(cs, k);
    SpliceLift(Flat(cs[..k]), Elems(cs[k]), Flat(cs[k + 1..]), Position(childNdx, Elems(cs[k])), values);
  }

  /** Record in `node` what erasing position q of child k did to that child. */
  method AbsorbErase<T>(node: InnerNode<T>, k: nat, child': Node<T>, childLeft: nat, ghost h: nat, ghost image: Node<T>,
                        ghost q: nat, ghost p: nat)
    returns (left: nat, merged: bool)
    requires h > 0 && WF(node.Image(), h) && node.form.General? && k < |node.children|
    requires q < |Elems(node.children[k])| && p == Off(node.children, k) + q
    requires image.Inner? && image.children == node.children
    requires Erased(node.children[k], child', childLeft, h - 1, q)
    modifies node
    ensures p < |Elems(image)| && Erased(image, node.Image(), left, h, p)
    ensures merged ==> childLeft > 0 && left == |old(node.children)| - 1 && k < left && NodeSize(node.children[k]) >= 2
                       && WF(node.children[k], h - 1)
    ensures !merged && childLeft > 0 ==> left == |old(node.children)|
  {
    ghost var cs := node.children;
    EraseAt(image, k, q, p);
    merged := false;
    if childLeft == 0 {
      assert Cut(Elems(cs[k]), q) == [];
      left := DropEmptied(node, k, child', h);
    } else {
      left, merged := KeepShrunk(node, k, child', childLeft, h);
    }
  }

  /** What erasing position p leaves of a node, seen from the child k that holds it. */
  lemma {:induction false} EraseAt<T>(image: Node<T>, k: nat, q: nat, p: nat)
    requires image.Inner? && k < |image.children| && q < |Elems(image.children[k])| && p == Off(image.children, k) + q
    ensures p < |Elems(image)| && |Elems(image)| >= |Elems(image.children[k])|
    ensures var cs := image.children;
            && Cut(Elems(image), p) == Flat(cs[..k]) + Cut(Elems(cs[k]), q) + Flat(cs[k + 1..])
            && Shrunk(image, p) == Remaining(Thinned(cs, k, Shrunk(cs[k], q)))
  {
    FlatAt(image.children, k);
    LiftErase(image.children, k, q);
    PlaceAt(image.children, k, p);
  }

  /** Child k lost its only element. An only child is left in place for the parent to drop. */
  method DropEmptied<T>(node: InnerNode<T>, k: nat, child': Node<T>, ghost h: nat) returns (left: nat)
    requires h > 0 && WF(node.Image(), h) && node.form.General?
    requires k < |node.children| && |Elems(node.children[k])| == 1
    modifies node
    ensures left == |old(node.children)| - 1
    ensures left == 0 <==> |old(Elems(node.Image()))| == 1
    ensures left > 0 ==> WF(node.Image(), h) && |node.children| == left
                         && Elems(node.Image()) == Flat(old(node.children)[..k]) + Flat(old(node.children)[k + 1..])
    ensures left > 0 ==> node.Image() == Over(General([]), Thinned(old(node.children), k, None))
  {
    ghost var cs := node.children;
    AdjustableFrom(node.form.offsets, cs, k, -1);
    FlatAt(cs, k);
    if |cs| >= 2 {
      DroppedOk(node.form.offsets, cs, node.total, h, k);
      WFNonEmpty(Dropped(node.form.offsets, cs, node.total, k), h);
    }
    Shrink(node, k, child');
    var count := |node.children|;
    if count == 1 {
      return 0;
    }
    EraseBpNode(node, k);
    assert node.children == cs[..k] + cs[k + 1..];
    OverItself(node.Image(), h, General([]));
    left := count - 1;
  }

  /** Record that child k lost an element. */
  method Shrink<T>(node: InnerNode<T>, k: nat, child': Node<T>)
    requires node.form.General? && k < |node.children| && node.total > 0
    requires forall i :: k <= i < |node.form.offsets| ==> node.form.offsets[i] >= 1
    modifies node
    ensures node.Image() == Inner(General(Adjusted(old(node.form).offsets, k, -1)), old(node.children)[k := child'],
                                  old(node.total) - 1)
  {
    node.children := node.children[k := child'];
    node.total := node.total - 1;
    node.form := General(Adjusted(node.form.offsets, k, -1));
  }

  /** Child k lost an element and has `childLeft` entries left; it may be merged with its next sibling. */
  method KeepShrunk<T>(node: InnerNode<T>, k: nat, child': Node<T>, childLeft: nat, ghost h: nat)
    returns (left: nat, merged: bool)
    requires h > 0 && WF(node.Image(), h) && node.form.General? && k < |node.children|
    requires WF(child', h - 1) && |Elems(child')| == |Elems(node.children[k])| - 1 && childLeft == NodeSize(child')
    modifies node
    ensures WF(node.Image(), h) && left == |node.children| > 0
    ensures Elems(node.Image()) == Flat(old(node.children)[..k]) + Elems(child') + Flat(old(node.children)[k + 1..])
    ensures !merged ==> left == |old(node.children)|
    ensures merged ==> left == |old(node.children)| - 1 && k < left && NodeSize(node.children[k]) >= 2
    ensures merged <==> k + 1 < |old(node.children)| && Mergeable(child', old(node.children)[k + 1])
    ensures node.Image() == Over(General([]), Thinned(old(node.children), k, Some(child')))
  {
    ghost var cs := node.children;
    WithChildOk(node.form, cs, node.total, h, k, child', -1);
    Shrink(node, k, child');
    left, merged := |node.children|, false;
    if childLeft < M / 2 && k < left - 1 {
      merged := MergeWithNext(node, k, h);
      if merged {
        left := left - 1;
        assert FusedRun(cs[k := child'], k) == Thinned(cs, k, Some(child'));
      }
    }
    OverItself(node.Image(), h, General([]));
  }

  /** The stored number of elements below a node. */
  function TreeSize<T>(n: Node<T>): nat {
    if n.Leaf? then |n.elems| else n.total
  }

  /** A root over the two halves of a split root. */
  lemma {:induction false} NewRootOk<T>(a: Node<T>, b: Node<T>, h: nat, compact: bool)
    requires WF(a, h) && WF(b, h)
    requires compact ==> IsCompact(a) && IsCompact(b) && |Elems(a)| == Pow(h + 1)
    ensures var n := Inner(if compact then Compact(|Elems(a)|) else General([|Elems(a)|]), [a, b],
                           |Elems(a)| + |Elems(b)|);
            RootWF(n, h + 1) && Elems(n) == Elems(a) + Elems(b)
  {
    FlatTwo(a, b);
    assert [a, b][..1] == [a];
    FlatOne(a);
  }
}
