/** Bottom-up bulk loading and bulk append (bulk_adopt_leaves and add_from). */
module BpBulk {
  import opened Options
  import opened BpNode
  import opened BpShape
  import opened BpInner
  import opened BpTree
  import opened BpAppend

  /** Nodes of height h in a row: compact, and all but the last one full. */
  ghost predicate Level<T>(level: seq<Node<T>>, h: nat) {
    && AllWF(level, h)
    && (forall i :: 0 <= i < |level| ==> IsCompact(level[i]))
    && (forall i :: 0 <= i < |level| - 1 ==> |Elems(level[i])| == Pow(h + 1))
  }

  // ---- A compact tree is determined by its content ----

  lemma {:induction false} RunUnique<T>(cs: seq<Node<T>>, ds: seq<Node<T>>, h: nat)
    requires Level(cs, h) && Level(ds, h) && cs != [] && ds != [] && Flat(cs) == Flat(ds)
    ensures cs == ds
    decreases h, |cs|, 1
  {
    FirstUnique(cs, ds, h);
    if |cs| == 1 {
      if |ds| > 1 {
        WFNonEmpty(ds[1], h);
        assert false;
      }
    } else {
      if |ds| == 1 {
        WFNonEmpty(cs[1], h);
        assert false;
      }
      AllWFSub(cs, h, 1, |cs|);
      AllWFSub(ds, h, 1, |ds|);
      RunUnique(cs[1..], ds[1..], h);
      assert cs == [cs[0]] + cs[1..] && ds == [ds[0]] + ds[1..];
    }
  }

  /** Both runs cut their content at the same place, so their first nodes agree. */
  lemma {:induction false} FirstUnique<T>(cs: seq<Node<T>>, ds: seq<Node<T>>, h: nat)
    requires Level(cs, h) && Level(ds, h) && cs != [] && ds != [] && Flat(cs) == Flat(ds)
    ensures cs[0] == ds[0] && Flat(cs[1..]) == Flat(ds[1..])
    decreases h, |cs|, 0
  {
    FirstSize(cs, h);
    FirstSize(ds, h);
    assert Elems(cs[0]) == Flat(cs)[..|Elems(cs[0])|];
    assert Elems(ds[0]) == Flat(ds)[..|Elems(ds[0])|];
    assert Flat(cs[1..]) == Flat(cs)[|Elems(cs[0])|..];
    assert Flat(ds[1..]) == Flat(ds)[|Elems(ds[0])|..];
    NodeUnique(cs[0], ds[0], h);
  }

  /** The first node takes a full share of the content, or all of it. */
  lemma {:induction false} FirstSize<T>(cs: seq<Node<T>>, h: nat)
    requires Level(cs, h) && cs != []
    ensures |Elems(cs[0])| == if |Flat(cs)| < Pow(h + 1) then |Flat(cs)| else Pow(h + 1)
  {
    AllWFAt(cs, h, 0);
    SizeBound(cs[0], h);
    if |cs| == 1 {
      assert cs[1..] == [];
    }
  }

  lemma {:induction false} NodeUnique<T>(a: Node<T>, b: Node<T>, h: nat)
    requires WF(a, h) && WF(b, h) && IsCompact(a) && IsCompact(b) && Elems(a) == Elems(b)
    ensures a == b
    decreases h, 0, 0
  {
    if h > 0 {
      RunUnique(a.children, b.children, h - 1);
    }
  }

  lemma {:induction false} PowMono(i: nat, j: nat)
    requires i <= j
    ensures Pow(i) <= Pow(j)
    decreases j
  {
    if i < j {
      PowMono(i, j - 1);
      MulMono(1, M, Pow(j - 1));
    }
  }

  /** A compact inner root of height h holds more than M^h elements, for it has a second child. */
  lemma {:induction false} CompactRootSize<T>(n: Node<T>, h: nat)
    requires n.Inner? && RootWF(n, h) && IsCompact(n)
    ensures Pow(h) < |Elems(n)| <= Pow(h + 1)
  {
    SizeBound(n, h);
    AllWFAt(n.children, h - 1, 1);
    WFNonEmpty(n.children[1], h - 1);
    FlatAt(n.children, 1);
    CompactOff(n.children, Pow(h), 1);
  }

  /** Two well-formed compact trees with the same content are the same tree. */
  lemma {:induction false} CompactTreeUnique<T>(a: Node<T>, ha: nat, b: Node<T>, hb: nat)
    requires RootWF(a, ha) && RootWF(b, hb) && IsCompact(a) && IsCompact(b) && Elems(a) == Elems(b)
    ensures a == b && ha == hb
  {
    assert Pow(1) == M * Pow(0) == M;
    if a.Inner? {
      CompactRootSize(a, ha);
      PowMono(1, ha);
    }
    if b.Inner? {
      CompactRootSize(b, hb);
      PowMono(1, hb);
    }
    if a.Inner? && b.Inner? {
      if ha < hb {
        PowMono(ha + 1, hb);
      } else if hb < ha {
        PowMono(hb + 1, ha);
      }
      NodeUnique(a, b, ha);
    }
  }

  // ---- Bulk loading ----

  function Min(a: nat, b: nat): nat {
    if a < b then a else b
  }

  /** A compact inner node over a group of nodes. */
  method GroupNode<T>(group: seq<Node<T>>, elemsPerChild: nat, total: nat) returns (n: Node<T>)
    ensures n == Inner(Compact(elemsPerChild), group, total)
  {
    var inner := new InnerNode<T>.Create(elemsPerChild);
    for j := 0 to |group|
      invariant inner.form == Compact(elemsPerChild) && inner.children == group[..j]
    {
      inner.AddBpNode(group[j], 0);
    }
    inner.total := total;
    n := inner.Image();
    assert group[..|group|] == group;
  }

  /** The nodes `next` of height h + 1 stand for the first i nodes of `level`. */
  ghost predicate Grouped<T>(level: seq<Node<T>>, next: seq<Node<T>>, i: nat, h: nat) {
    && i <= |level|
    && Level(next, h + 1)
    && Flat(next) == Flat(level[..i])
    && (i < |level| ==> 2 * |next| <= i && forall k :: 0 <= k < |next| ==> |Elems(next[k])| == Pow(h + 2))
    && 2 * |next| <= i + 1
    && (|next| == 1 && i == |level| ==> next[0].Inner? && next[0].children == level)
  }

  lemma {:induction false} LevelGroup<T>(level: seq<Node<T>>, h: nat, i: nat, n: nat)
    requires Level(level, h) && i + n <= |level| && 1 <= n <= M
    ensures var g := Inner(Compact(Pow(h + 1)), level[i..i + n], |Flat(level[i..i + n])|);
            WF(g, h + 1) && (i + n < |level| ==> |Elems(g)| == n * Pow(h + 1))
  {
    AllWFSub(level, h, i, i + n);
    if i + n < |level| {
      FlatExact(level[i..i + n], Pow(h + 1));
    }
  }

  lemma {:induction false} GroupedStep<T>(level: seq<Node<T>>, next: seq<Node<T>>, i: nat, n: nat, h: nat)
    requires Level(level, h) && Grouped(level, next, i, h) && i < |level| && n == Min(|level| - i, M)
    requires i == 0 <==> next == []
    requires |level| > 1
    ensures var g := Inner(Compact(Pow(h + 1)), level[i..i + n], |Flat(level[i..i + n])|);
            Grouped(level, next + [g], i + n, h)
  {
    var g := Inner(Compact(Pow(h + 1)), level[i..i + n], |Flat(level[i..i + n])|);
    LevelGroup(level, h, i, n);
    AllWFAppend(next, [g], h + 1);
    FlatAppend(next, [g]);
    FlatOne(g);
    assert level[..i + n] == level[..i] + level[i..i + n];
    FlatAppend(level[..i], level[i..i + n]);
    assert level[0..|level|] == level;
  }

  /** How many elements the group starting at node i spans, computed without looking at the nodes. */
  lemma {:induction false} SubSize<T>(level: seq<Node<T>>, h: nat, i: nat, n: nat)
    requires Level(level, h) && i < |level| && n == Min(|level| - i, M)
    ensures i * Pow(h + 1) <= |Flat(level)|
    ensures |Flat(level[i..i + n])| ==
            if i + n < |level| then n * Pow(h + 1) else |Flat(level)| - i * Pow(h + 1)
  {
    CompactOff(level, Pow(h + 1), i);
    FlatCut(level, i, i + n);
    if i + n < |level| {
      FlatExact(level[i..i + n], Pow(h + 1));
    } else {
      assert level[i + n..] == [];
    }
  }

  method SpanOf<T>(level: seq<Node<T>>, i: nat, n: nat, elemsPerChild: nat, total: nat, ghost h: nat) returns (sub: nat)
    requires Level(level, h) && i < |level| && n == Min(|level| - i, M)
    requires elemsPerChild == Pow(h + 1) && total == |Flat(level)|
    ensures sub == |Flat(level[i..i + n])|
  {
    SubSize(level, h, i, n);
    sub := if i + n < |level| then n * elemsPerChild else total - i * elemsPerChild;
  }

  method GroupLevel<T>(level: seq<Node<T>>, elemsPerChild: nat, total: nat, ghost h: nat) returns (next: seq<Node<T>>)
    requires Level(level, h) && |level| > 1 && elemsPerChild == Pow(h + 1) && total == |Flat(level)|
    ensures Level(next, h + 1) && Flat(next) == Flat(level) && 1 <= |next| < |level|
    ensures |next| == 1 ==> next[0].Inner? && |next[0].children| >= 2
  {
    next := [];
    var i := 0;
    while i < |level|
      invariant Grouped(level, next, i, h)
      invariant i == 0 <==> next == []
    {
      var n := Min(|level| - i, M);
      var sub := SpanOf(level, i, n, elemsPerChild, total, h);
      var g := GroupNode(level[i..i + n], elemsPerChild, sub);
      GroupedStep(level, next, i, n, h);
      next := next + [g];
      i := i + n;
    }
    assert level[..i] == level;
  }

  /** Build the inner levels over full leaves, of which only the last may be short. */
  method AdoptLeaves<T>(leaves: seq<Node<T>>, total: nat) returns (root: Node<T>, ghost h: nat)
    requires leaves != [] && Level(leaves, 0) && total == |Flat(leaves)|
    ensures RootWF(root, h) && IsCompact(root) && Elems(root) == Flat(leaves)
  {
    var level := leaves;
    var elemsPerChild := M;
    h := 0;
    while |level| > 1
      invariant level != [] && Level(level, h) && Flat(level) == Flat(leaves) && elemsPerChild == Pow(h + 1)
      invariant |level| == 1 && h > 0 ==> level[0].Inner? && |level[0].children| >= 2
      decreases |level|
    {
      level := GroupLevel(level, elemsPerChild, total, h);
      h := h + 1;
      elemsPerChild := elemsPerChild * M;
    }
    root := level[0];
    FlatOne(root);
    assert level == [root];
  }

  /** The values cut into leaves of M, the last one shorter when need be. */
  method CutLeaves<T>(values: seq<T>) returns (leaves: seq<Node<T>>)
    requires values != []
    ensures leaves != [] && Level(leaves, 0) && Flat(leaves) == values
  {
    leaves := [];
    var offset := 0;
    while offset < |values|
      invariant offset <= |values| && Level(leaves, 0) && Flat(leaves) == values[..offset]
      invariant offset < |values| ==> forall k :: 0 <= k < |leaves| ==> |Elems(leaves[k])| == Pow(1)
      invariant offset > 0 <==> leaves != []
    {
      var n := Min(|values| - offset, M);
      var leaf := Leaf(values[offset..offset + n]);
      AllWFAppend(leaves, [leaf], 0);
      FlatAppend(leaves, [leaf]);
      FlatOne(leaf);
      assert values[..offset] + values[offset..offset + n] == values[..offset + n];
      leaves := leaves + [leaf];
      offset := offset + n;
    }
    assert values[..|values|] == values;
  }

  /** Append a batch of values. An empty tree is built bottom-up, any other grows at its right edge. */
  method AddFrom<T>(t: BPlusTree<T>, values: seq<T>)
    requires t.Valid() && t.size + |values| <= NPOS
    modifies t
    ensures t.Valid() && t.Contents() == old(t.Contents()) + values
    ensures t.root == Appended(old(t.root), values)
    ensures IsCompact(old(t.root)) ==> IsCompact(t.root)
  {
    if |values| == 0 {
      return;
    }
    if t.size != 0 {
      AppendBatch(t, values);
      return;
    }
    EmptyRoot(t.root, t.height);
    var leaves := CutLeaves(values);
    var root, h := AdoptLeaves(leaves, |values|);
    ghost var single := AppendedCompact(values);
    CompactTreeUnique(root, h, Appended(Leaf([]), values), single);
    t.root, t.height := root, h;
    t.size := |values|;
    t.InvalidateLeafCache();
  }

  lemma {:induction false} EmptyRoot<T>(n: Node<T>, h: nat)
    requires RootWF(n, h) && Elems(n) == []
    ensures n == Leaf([])
  {
    if n.Inner? {
      InnerRootSize(n, h);
    }
  }

  /** Fill the last leaf, then hang finished leaves behind it. */
  method AppendBatch<T>(t: BPlusTree<T>, values: seq<T>)
    requires t.Valid() && t.size > 0 && t.size + |values| <= NPOS
    modifies t
    ensures t.Valid() && t.Contents() == old(t.Contents()) + values
    ensures t.root == Appended(old(t.root), values)
    ensures IsCompact(old(t.root)) ==> IsCompact(t.root)
  {
    ghost var was, before := t.root, t.Contents();
    assert values[..0] == [];
    var offset := 0;
    while offset < |values|
      invariant offset <= |values| && t.Valid() && t.size > 0 && t.size + |values| - offset <= NPOS
      invariant BatchDone(was, before, t.root, t.Contents(), values[..offset])
      invariant IsCompact(was) ==> IsCompact(t.root)
    {
      ghost var root, content := t.root, t.Contents();
      var n := AppendChunk(t, values[offset..]);
      BatchStep(was, before, root, content, t.root, t.Contents(), values[..offset], values[offset..][..n]);
      assert values[..offset] + values[offset..][..n] == values[..offset + n];
      offset := offset + n;
    }
    assert values[..|values|] == values;
  }

  /** The tree `root` with content `s` is what the values made of `was` with content `before`. */
  ghost predicate BatchDone<T>(was: Node<T>, before: seq<T>, root: Node<T>, s: seq<T>, values: seq<T>) {
    s == before + values && root == Appended(was, values)
  }

  lemma {:induction false} BatchStep<T>(was: Node<T>, before: seq<T>, root: Node<T>, s: seq<T>, root': Node<T>,
                                        s': seq<T>, a: seq<T>, b: seq<T>)
    requires BatchDone(was, before, root, s, a) && BatchDone(root, s, root', s', b)
    ensures BatchDone(was, before, root', s', a + b)
  {
    AppendedTwice(was, a, b);
  }

  /** One descent: as many values as the last leaf has room for, or a new leaf when it is full. */
  method AppendChunk<T>(t: BPlusTree<T>, values: seq<T>) returns (n: nat)
    requires t.Valid() && t.size > 0 && values != [] && t.size + |values| <= NPOS
    modifies t
    ensures 1 <= n <= |values| && t.Valid() && t.size == old(t.size) + n
    ensures BatchDone(old(t.root), old(t.Contents()), t.root, t.Contents(), values[..n])
    ensures var last := |LastLeaf(old(t.root))|;
            n < |values| ==> n == if last == M then M else M - last
    ensures IsCompact(old(t.root)) ==> IsCompact(t.root)
  {
    var tail, _ := t.AccessLeaf(t.size - 1);
    LastLeafBound(t.root, t.height);
    var full := |tail| == M;
    n := Min(|values|, if full then M else M - |tail|);
    AppendToLast(t, values[..n], full);
  }

  /** Add the values to the last leaf, or hang them behind it as a leaf of their own. */
  method AppendToLast<T>(t: BPlusTree<T>, values: seq<T>, full: bool)
    requires t.Valid() && t.size > 0 && 1 <= |values| <= M && t.size + |values| <= NPOS
    requires if full then |LastLeaf(t.root)| == M else |LastLeaf(t.root)| + |values| <= M
    modifies t
    ensures t.Valid() && t.size == old(t.size) + |values|
    ensures BatchDone(old(t.root), old(t.Contents()), t.root, t.Contents(), values)
    ensures IsCompact(old(t.root)) ==> IsCompact(t.root)
  {
    var req := if full then NewLeaf(values) else Tail(values);
    ghost var before := t.Contents();
    ChunkIsSingles(t.root, t.height, values, full);
    t.BptreeInsert(NPOS, req);
    assert Spliced(before, |before|, values) == before + values;
    t.size := t.size + |values|;
  }

  lemma {:induction false} ChunkIsSingles<T>(n: Node<T>, h: nat, values: seq<T>, full: bool)
    requires WF(n, h) && 1 <= |values| <= M
    requires if full then |LastLeaf(n)| == M else |LastLeaf(n)| + |values| <= M
    ensures GrownRoot(n, None, if full then NewLeaf(values) else Tail(values)) == Appended(n, values)
  {
    if full {
      LeafIsSingles(n, h, values);
    } else {
      TailIsSingles(n, h, values);
    }
  }

  lemma {:induction false} LastLeafBound<T>(n: Node<T>, h: nat)
    requires RootWF(n, h) || WF(n, h)
    ensures |LastLeaf(n)| <= M
  {
    if n.Inner? {
      AllWFAt(n.children, h - 1, |n.children| - 1);
      LastLeafBound(n.children[|n.children| - 1], h - 1);
    }
  }

  /** Bulk loading an empty tree gives the very tree that appending the values one by one gives. */
  method LoadBothWays<T>(values: seq<T>) returns (bulk: BPlusTree<T>, single: BPlusTree<T>)
    requires |values| <= NPOS
    ensures bulk.Valid() && single.Valid() && bulk.Contents() == single.Contents() == values
    ensures bulk.root == single.root == Appended(Leaf([]), values)
  {
    bulk := new BPlusTree<T>();
    AddFrom(bulk, values);
    single := new BPlusTree<T>();
    AppendEach(single, values);
  }

  method AppendEach<T>(t: BPlusTree<T>, values: seq<T>)
    requires t.Valid() && t.size + |values| <= NPOS
    modifies t
    ensures t.Valid() && t.Contents() == old(t.Contents()) + values
    ensures t.root == Appended(old(t.root), values)
  {
    for i := 0 to |values|
      invariant t.Valid() && t.Contents() == old(t.Contents()) + values[..i]
      invariant t.root == Appended(old(t.root), values[..i])
    {
      assert values[..i + 1] == values[..i] + [values[i]];
      AppendedStep(old(t.root), values[..i], values[i]);
      t.Add(values[i]);
    }
    assert values[..|values|] == values;
  }
}
