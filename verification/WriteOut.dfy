/** Writing a tree of nodes out, with read-only subtrees left where they are; and cloning one. */
module WriteOut {

  datatype Node = Node(inner: bool, hasRefs: bool, context: bool, elems: seq<int>)

  type Store = map<nat, Node>

  /** Refs are even and not zero; zero is an empty subtree, and odd values are integers. */
  predicate IsRef(v: int) {
    v != 0 && v % 2 == 0
  }

  /** The node at r is the root of a tree of at most d levels of nodes with refs. */
  ghost predicate Tree(h: Store, r: nat, d: nat)
    decreases d, 0
  {
    r in h && (h[r].hasRefs ==> d > 0 && TreesTo(h, h[r].elems, |h[r].elems|, d - 1))
  }

  ghost predicate TreesTo(h: Store, elems: seq<int>, n: nat, d: nat)
    requires n <= |elems|
    decreases d, n + 1
  {
    n == 0 || (
      && TreesTo(h, elems, n - 1, d)
      && (IsRef(elems[n - 1]) ==> elems[n - 1] > 0 && Tree(h, elems[n - 1], d)))
  }

  /** Deep equality: same kind of node, same values, and equal trees where there are refs. */
  ghost predicate Same(h: Store, r: nat, h': Store, r': nat, d: nat)
    decreases d, 0
  {
    && r in h && r' in h' && h'[r'] == h[r].(elems := h'[r'].elems) && |h'[r'].elems| == |h[r].elems|
    && (if h[r].hasRefs then d > 0 && SameTo(h, h[r].elems, h', h'[r'].elems, |h[r].elems|,
                                             d - 1) else h'[r'].elems == h[r].elems)
  }

  ghost predicate SameTo(h: Store, elems: seq<int>, h': Store, elems': seq<int>, n: nat, d: nat)
    requires n <= |elems| == |elems'|
    decreases d, n + 1
  {
    n == 0 || (
      && SameTo(h, elems, h', elems', n - 1, d)
      && (if IsRef(elems[n - 1]) then
            && elems[n - 1] > 0 && IsRef(elems'[n - 1]) && elems'[n - 1] > 0
            && Same(h, elems[n - 1], h', elems'[n - 1], d)
          else elems'[n - 1] == elems[n - 1]))
  }

  /**
   * r' is what r has become: itself if it is read-only and such subtrees are kept, otherwise a node of `out` that was
   * not in `before`, with null refs and integers unchanged and every other ref replaced by what it has become.
   */
  ghost predicate Became(h: Store, base: nat, keep: bool, before: Store, out: Store, r: nat, r': nat, d: nat)
    decreases d, 0
  {
    if keep && r < base then r' == r
    else
      && r in h && r' in out && r' !in before && out[r'] == h[r].(elems := out[r'].elems)
      && |out[r'].elems| == |h[r].elems|
      && (if h[r].hasRefs then d > 0 && BecameTo(h, base, keep, before, out, h[r].elems, out[r'].elems, |h[r].elems|,
                                                 d - 1)
          else out[r'].elems == h[r].elems)
  }

  ghost predicate BecameTo(h: Store, base: nat, keep: bool, before: Store, out: Store, elems: seq<int>,
                           elems': seq<int>, n: nat, d: nat)
    requires n <= |elems| && n <= |elems'|
    decreases d, n + 1
  {
    n == 0 || (
      && BecameTo(h, base, keep, before, out, elems, elems', n - 1, d)
      && (if IsRef(elems[n - 1]) then
            elems[n - 1] > 0 && elems'[n - 1] > 0 && IsRef(elems'[n - 1]) && Became(h, base, keep, before, out,
                                                                                    elems[n - 1], elems'[n - 1], d)
          else elems'[n - 1] == elems[n - 1]))
  }

  /** How many nodes have to be written for the tree at r: one for each place in it that is not kept. */
  ghost function Nodes(h: Store, base: nat, keep: bool, r: nat, d: nat): nat
    decreases d, 0
  {
    if keep && r < base then 0
    else 1 + if r in h && h[r].hasRefs && d > 0 then NodesTo(h, base, keep, h[r].elems, |h[r].elems|, d - 1) else 0
  }

  ghost function NodesTo(h: Store, base: nat, keep: bool, elems: seq<int>, n: nat, d: nat): nat
    requires n <= |elems|
    decreases d, n + 1
  {
    if n == 0 then 0
    else
      NodesTo(h, base, keep, elems, n - 1, d)
      + if IsRef(elems[n - 1]) && elems[n - 1] > 0 then Nodes(h, base, keep, elems[n - 1], d) else 0
  }

  ghost predicate Extends(a: Store, b: Store) {
    forall r :: r in a ==> r in b && b[r] == a[r]
  }

  /** More output, and a smaller account of what was there before, change nothing. */
  lemma {:induction false} BecameMore(h: Store, base: nat, keep: bool, before: Store, out: Store, before': Store,
                                      out': Store, r: nat, r': nat, d: nat)
    requires Became(h, base, keep, before, out, r, r', d) && Extends(before', before) && Extends(out, out')
    ensures Became(h, base, keep, before', out', r, r', d)
    decreases d, 0
  {
    if !(keep && r < base) && h[r].hasRefs {
      BecameToMore(h, base, keep, before, out, before', out', h[r].elems, out[r'].elems, |h[r].elems|, d - 1);
    }
  }

  lemma {:induction false} BecameToMore(h: Store, base: nat, keep: bool, before: Store, out: Store, before': Store,
                                        out': Store, elems: seq<int>, elems': seq<int>, n: nat, d: nat)
    requires n <= |elems| && n <= |elems'| && BecameTo(h, base, keep, before, out, elems, elems', n, d)
    requires Extends(before', before) && Extends(out, out')
    ensures BecameTo(h, base, keep, before', out', elems, elems', n, d)
    decreases d, n + 1
  {
    if n > 0 {
      BecameToMore(h, base, keep, before, out, before', out', elems, elems', n - 1, d);
      if IsRef(elems[n - 1]) {
        BecameMore(h, base, keep, before, out, before', out', elems[n - 1], elems'[n - 1], d);
      }
    }
  }

  lemma {:induction false} BecamePrefix(h: Store, base: nat, keep: bool, before: Store, out: Store, elems: seq<int>,
                                        elems': seq<int>, v: int, n: nat, d: nat)
    requires n <= |elems| && n <= |elems'| && BecameTo(h, base, keep, before, out, elems, elems', n, d)
    ensures BecameTo(h, base, keep, before, out, elems, elems' + [v], n, d)
    decreases n
  {
    if n > 0 {
      BecamePrefix(h, base, keep, before, out, elems, elems', v, n - 1, d);
    }
  }

  lemma {:induction false} TreeAt(h: Store, elems: seq<int>, n: nat, d: nat, i: nat)
    requires i < n <= |elems| && TreesTo(h, elems, n, d) && IsRef(elems[i])
    ensures elems[i] > 0 && Tree(h, elems[i], d)
    decreases n
  {
    if i < n - 1 {
      TreeAt(h, elems, n - 1, d, i);
    }
  }

  /** A new element of the node being built. */
  lemma {:induction false} BecameSnoc(h: Store, base: nat, keep: bool, before: Store, out: Store, out': Store,
                                      elems: seq<int>, built: seq<int>, v: int, d: nat)
    requires |built| < |elems| && BecameTo(h, base, keep, before, out, elems, built, |built|, d) && Extends(out, out')
    requires if IsRef(elems[|built|]) then
               elems[|built|] > 0 && v > 0 && IsRef(v) && Became(h, base, keep, before, out', elems[|built|], v, d)
             else v == elems[|built|]
    ensures BecameTo(h, base, keep, before, out', elems, built + [v], |built| + 1, d)
  {
    BecameToMore(h, base, keep, before, out, before, out', elems, built, |built|, d);
    BecamePrefix(h, base, keep, before, out', elems, built, v, |built|, d);
  }

  lemma {:induction false} LeafBecame(h: Store, base: nat, keep: bool, before: Store, out: Store, ref: nat, r: nat,
                                      d: nat)
    requires ref in h && !h[ref].hasRefs && !(keep && ref < base) && r !in before && out == before[r := h[ref]]
    ensures Became(h, base, keep, before, out, ref, r, d) && Extends(before, out)
  {
  }

  /** A node with refs, written after its elements. */
  lemma {:induction false} NodeBecame(h: Store, base: nat, keep: bool, before: Store, mid: Store, out: Store, ref: nat,
                                      r: nat, elems: seq<int>, d: nat)
    requires ref in h && h[ref].hasRefs && !(keep && ref < base) && d > 0 && |elems| == |h[ref].elems|
    requires BecameTo(h, base, keep, before, mid, h[ref].elems, elems, |elems|, d - 1)
    requires Extends(before, mid) && r !in mid && out == mid[r := h[ref].(elems := elems)]
    ensures Became(h, base, keep, before, out, ref, r, d) && Extends(before, out)
  {
    BecameToMore(h, base, keep, before, mid, before, out, h[ref].elems, elems, |elems|, d - 1);
  }

  // ---- Order of writing ----

  /**
   * A ref that a node written at r may hold: one that is kept, or one written before. Refs grow as nodes are written.
   */
  ghost predicate Prior(out: Store, base: nat, keep: bool, e: int, r: nat) {
    (keep && 0 < e < base) || (0 < e < r && e in out)
  }

  ghost predicate AllPrior(out: Store, base: nat, keep: bool, elems: seq<int>, r: nat) {
    forall i :: 0 <= i < |elems| && IsRef(elems[i]) ==> Prior(out, base, keep, elems[i], r)
  }

  /** Every node was written after what it refers to. */
  ghost predicate Ordered(out: Store, base: nat, keep: bool) {
    forall r :: r in out && out[r].hasRefs ==> AllPrior(out, base, keep, out[r].elems, r)
  }

  lemma {:induction false} BuiltPrior(h: Store, base: nat, keep: bool, before: Store, out: Store, elems: seq<int>,
                                      built: seq<int>, n: nat, d: nat, r: nat, i: nat)
    requires i < n <= |elems| && n <= |built| && BecameTo(h, base, keep, before, out, elems, built, n, d)
    requires IsRef(built[i]) && forall k :: k in out ==> k < r
    ensures Prior(out, base, keep, built[i], r)
    decreases n
  {
    if i < n - 1 {
      BuiltPrior(h, base, keep, before, out, elems, built, n - 1, d, r, i);
    }
  }

  lemma {:induction false} OrderedMore(out: Store, base: nat, keep: bool, r: nat, node: Node)
    requires Ordered(out, base, keep) && (forall k :: k in out ==> k < r)
    requires node.hasRefs ==> AllPrior(out, base, keep, node.elems, r)
    ensures Ordered(out[r := node], base, keep)
  {
    var out' := out[r := node];
    forall k | k in out' && out'[k].hasRefs ensures AllPrior(out', base, keep, out'[k].elems, k) {
      assert AllPrior(out, base, keep, out'[k].elems, k);
    }
  }

  lemma AlignedNext(n: nat)
    requires n % 8 == 0 && n > 0
    ensures (n + 8) % 8 == 0 && IsRef(n)
  {
  }

  /** The writer: each array goes to a fresh ref, aligned to 8 bytes. */
  class Writer {
    var out: Store
    var next: nat

    /** Everything written lies below `next` and above what is used. */
    ghost predicate Valid(used: nat)
      reads this
    {
      next % 8 == 0 && next > 0 && used <= next && forall r :: r in out ==> used <= r < next
    }

    constructor (used: nat)
      ensures Valid(used) && out == map[]
    {
      out := map[];
      next := (used + 8) / 8 * 8;
    }

    method WriteArray(node: Node, ghost used: nat) returns (r: nat)
      requires Valid(used)
      modifies this
      ensures Valid(used) && r !in old(out) && r >= used && r > 0 && r % 8 == 0 && IsRef(r)
      ensures out == old(out)[r := node] && forall k :: k in old(out) ==> k < r
    {
      AlignedNext(next);
      r := next;
      out := out[r := node];
      next := r + 8;
    }
  }

  /**
   * Write the tree at `ref`: read-only nodes are kept if asked, others are written after the subtrees they refer to.
   */
  method Write(h: Store, base: nat, keep: bool, ref: nat, w: Writer, ghost used: nat, ghost d: nat) returns (r: nat)
    requires Tree(h, ref, d) && w.Valid(used) && ref > 0 && IsRef(ref)
    modifies w
    ensures w.Valid(used) && Extends(old(w.out), w.out) && r > 0 && IsRef(r)
    ensures Became(h, base, keep, old(w.out), w.out, ref, r, d)
    ensures |w.out| == |old(w.out)| + Nodes(h, base, keep, ref, d)
    ensures Ordered(old(w.out), base, keep) ==> Ordered(w.out, base, keep)
    decreases d, 0
  {
    if keep && ref < base {
      return ref;
    }
    ghost var before := w.out;
    if !h[ref].hasRefs {
      r := w.WriteArray(h[ref], used);
      LeafBecame(h, base, keep, before, w.out, ref, r, d);
      if Ordered(before, base, keep) {
        OrderedMore(before, base, keep, r, h[ref]);
      }
    } else {
      var elems := WriteElems(h, base, keep, h[ref].elems, w, used, d - 1);
      ghost var mid := w.out;
      r := w.WriteArray(h[ref].(elems := elems), used);
      NodeBecame(h, base, keep, before, mid, w.out, ref, r, elems, d);
      if Ordered(mid, base, keep) {
        forall i | 0 <= i < |elems| && IsRef(elems[i]) ensures Prior(mid, base, keep, elems[i], r) {
          BuiltPrior(h, base, keep, before, mid, h[ref].elems, elems, |elems|, d - 1, r, i);
        }
        OrderedMore(mid, base, keep, r, h[ref].(elems := elems));
      }
    }
  }

  /** The elements of the new node, subtrees written first. */
  method WriteElems(h: Store, base: nat, keep: bool, elems: seq<int>, w: Writer, ghost used: nat, ghost d: nat)
    returns (built: seq<int>)
    requires TreesTo(h, elems, |elems|, d) && w.Valid(used)
    modifies w
    ensures w.Valid(used) && Extends(old(w.out), w.out)
    ensures |built| == |elems| && BecameTo(h, base, keep, old(w.out), w.out, elems, built, |elems|, d)
    ensures |w.out| == |old(w.out)| + NodesTo(h, base, keep, elems, |elems|, d)
    ensures Ordered(old(w.out), base, keep) ==> Ordered(w.out, base, keep)
    decreases d, 1
  {
    ghost var before := w.out;
    built := [];
    for i := 0 to |elems|
      invariant w.Valid(used) && Extends(before, w.out)
      invariant |built| == i && BecameTo(h, base, keep, before, w.out, elems, built, i, d)
      invariant |w.out| == |before| + NodesTo(h, base, keep, elems, i, d)
      invariant Ordered(before, base, keep) ==> Ordered(w.out, base, keep)
    {
      var value := elems[i];
      ghost var mid := w.out;
      if IsRef(value) {
        TreeAt(h, elems, |elems|, d, i);
        var sub := Write(h, base, keep, value, w, used, d);
        BecameMore(h, base, keep, mid, w.out, before, w.out, value, sub, d);
        value := sub;
      }
      BecameSnoc(h, base, keep, before, mid, w.out, elems, built, value, d);
      built := built + [value];
    }
  }

  // ---- Deep equality ----

  /** What is read-only refers only to what is read-only. */
  ghost predicate Closed(h: Store, base: nat) {
    forall r, i ::
      r in h && r < base && h[r].hasRefs && 0 <= i < |h[r].elems| && IsRef(h[r].elems[i]) ==> h[r].elems[i] < base
  }

  /** What can be read afterwards: the read-only part and what was written. */
  ghost function After(h: Store, base: nat, out: Store): Store {
    (map r | r in h && r < base :: h[r]) + out
  }

  lemma {:induction false} ReadOnlySame(h: Store, base: nat, out: Store, r: nat, d: nat)
    requires Tree(h, r, d) && r < base && Closed(h, base) && forall k :: k in out && k < base ==> k !in h
    ensures Same(h, r, After(h, base, out), r, d)
    decreases d, 0
  {
    if h[r].hasRefs {
      ReadOnlySameTo(h, base, out, r, |h[r].elems|, d - 1);
    }
  }

  lemma {:induction false} ReadOnlySameTo(h: Store, base: nat, out: Store, r: nat, n: nat, d: nat)
    requires r in h && r < base && h[r].hasRefs && n <= |h[r].elems| && TreesTo(h, h[r].elems, n, d)
    requires Closed(h, base) && forall k :: k in out && k < base ==> k !in h
    ensures SameTo(h, h[r].elems, After(h, base, out), h[r].elems, n, d)
    decreases d, n + 1
  {
    if n > 0 {
      ReadOnlySameTo(h, base, out, r, n - 1, d);
      if IsRef(h[r].elems[n - 1]) {
        ReadOnlySame(h, base, out, h[r].elems[n - 1], d);
      }
    }
  }

  /** What a tree has become is deeply equal to it. */
  lemma {:induction false} BecameSame(h: Store, base: nat, keep: bool, before: Store, out: Store, r: nat, r': nat,
                                      d: nat)
    requires Tree(h, r, d) && Became(h, base, keep, before, out, r, r', d)
    requires keep ==> Closed(h, base) && forall k :: k in out && k < base ==> k !in h
    ensures Same(h, r, if keep then After(h, base, out) else out, r', d)
    decreases d, 0
  {
    if keep && r < base {
      ReadOnlySame(h, base, out, r, d);
    } else if h[r].hasRefs {
      BecameSameTo(h, base, keep, before, out, h[r].elems, out[r'].elems, |h[r].elems|, d - 1);
    }
  }

  lemma {:induction false} BecameSameTo(h: Store, base: nat, keep: bool, before: Store, out: Store, elems: seq<int>,
                                        elems': seq<int>, n: nat, d: nat)
    requires n <= |elems| == |elems'| && TreesTo(h, elems, n, d)
    requires BecameTo(h, base, keep, before, out, elems, elems', n, d)
    requires keep ==> Closed(h, base) && forall k :: k in out && k < base ==> k !in h
    ensures SameTo(h, elems, if keep then After(h, base, out) else out, elems', n, d)
    decreases d, n + 1
  {
    if n > 0 {
      BecameSameTo(h, base, keep, before, out, elems, elems', n - 1, d);
      if IsRef(elems[n - 1]) {
        BecameSame(h, base, keep, before, out, elems[n - 1], elems'[n - 1], d);
      }
    }
  }

  /** Writing out what was modified gives a deeply equal tree; nothing is written for a read-only one. */
  method WriteModified(h: Store, base: nat, ref: nat, ghost d: nat) returns (r: nat, w: Writer)
    requires Tree(h, ref, d) && ref > 0 && IsRef(ref) && Closed(h, base)
    ensures Same(h, ref, After(h, base, w.out), r, d) && Became(h, base, true, map[], w.out, ref, r, d)
    ensures Ordered(w.out, base, true)
    ensures ref < base ==> r == ref && w.out == map[]
    ensures |w.out| == Nodes(h, base, true, ref, d)
  {
    w := new Writer(base);
    if ref < base {
      r := ref;
      ReadOnlySame(h, base, w.out, ref, d);
    } else {
      r := Write(h, base, true, ref, w, base, d);
      BecameSame(h, base, true, map[], w.out, ref, r, d);
    }
  }

  // ---- Cloning ----

  /** Copy a tree into another store: a node without refs as it is, one with refs element by element. */
  method Clone(h: Store, ref: nat, target: Writer, ghost used: nat, ghost d: nat) returns (r: nat)
    requires Tree(h, ref, d) && target.Valid(used)
    modifies target
    ensures target.Valid(used) && Extends(old(target.out), target.out) && r > 0 && IsRef(r)
    ensures Became(h, 0, false, old(target.out), target.out, ref, r, d) && Same(h, ref, target.out, r, d)
    ensures |target.out| == |old(target.out)| + Nodes(h, 0, false, ref, d)
    decreases d, 0
  {
    ghost var before := target.out;
    if !h[ref].hasRefs {
      r := target.WriteArray(h[ref], used);
      LeafBecame(h, 0, false, before, target.out, ref, r, d);
    } else {
      var elems := CloneElems(h, h[ref].elems, target, used, d - 1);
      ghost var mid := target.out;
      r := target.WriteArray(h[ref].(elems := elems), used);
      NodeBecame(h, 0, false, before, mid, target.out, ref, r, elems, d);
    }
    BecameSame(h, 0, false, before, target.out, ref, r, d);
  }

  method CloneElems(h: Store, elems: seq<int>, target: Writer, ghost used: nat, ghost d: nat) returns (built: seq<int>)
    requires TreesTo(h, elems, |elems|, d) && target.Valid(used)
    modifies target
    ensures target.Valid(used) && Extends(old(target.out), target.out)
    ensures |built| == |elems| && BecameTo(h, 0, false, old(target.out), target.out, elems, built, |elems|, d)
    ensures |target.out| == |old(target.out)| + NodesTo(h, 0, false, elems, |elems|, d)
    decreases d, 1
  {
    ghost var before := target.out;
    built := [];
    for i := 0 to |elems|
      invariant target.Valid(used) && Extends(before, target.out)
      invariant |built| == i && BecameTo(h, 0, false, before, target.out, elems, built, i, d)
      invariant |target.out| == |before| + NodesTo(h, 0, false, elems, i, d)
    {
      var value := elems[i];
      ghost var mid := target.out;
      if IsRef(value) {
        TreeAt(h, elems, |elems|, d, i);
        var sub := Clone(h, value, target, used, d);
        BecameMore(h, 0, false, mid, target.out, before, target.out, value, sub, d);
        value := sub;
      }
      BecameSnoc(h, 0, false, before, mid, target.out, elems, built, value, d);
      built := built + [value];
    }
  }
}
