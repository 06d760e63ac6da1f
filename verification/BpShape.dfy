/** The tree that an update leaves behind, said on values: which leaves there are and what hangs under which node. */
module BpShape {
  import opened Options
  import opened BpNode

  /** What the leaf is asked to do: insert one value, append values, or take a finished leaf after it. */
  datatype Insertion<T> = One(value: T) | Tail(values: seq<T>) | NewLeaf(values: seq<T>)

  function Values<T>(req: Insertion<T>): seq<T> {
    if req.One? then [req.value] else req.values
  }

  function Spliced<T>(s: seq<T>, p: nat, values: seq<T>): seq<T>
    requires p <= |s|
  {
    s[..p] + values + s[p..]
  }

  function Cut<T>(s: seq<T>, p: nat): seq<T>
    requires p < |s|
  {
    s[..p] + s[p + 1..]
  }

  /** A missing index (npos) means the end. */
  function Position<T>(ndx: Option<nat>, s: seq<T>): nat {
    if ndx.Some? then ndx.value else |s|
  }

  /** The rightmost leaf, the one that appends reach. */
  function LastLeaf<T>(n: Node<T>): seq<T> {
    match n
    case Leaf(es) => es
    case Inner(_, cs, _) => if cs == [] then [] else LastLeaf(cs[|cs| - 1])
  }

  function NodeSize<T>(n: Node<T>): nat {
    if n.Leaf? then |n.elems| else |n.children|
  }

  /** The inner node over `cs`: it stays compact if it was, and otherwise stores where its children start. */
  ghost function Over<T>(form: Form, cs: seq<Node<T>>): Node<T> {
    Inner(if form.Compact? then form else General(Starts(cs)), cs, |Flat(cs)|)
  }

  ghost function Starts<T>(cs: seq<Node<T>>): seq<nat> {
    seq(if cs == [] then 0 else |cs| - 1, i requires 0 <= i < |cs| => Off(cs, i + 1))
  }

  /** A well-formed inner node is determined by its children and by whether it is compact. */
  lemma {:induction false} OverItself<T>(n: Node<T>, h: nat, form: Form)
    requires n.Inner? && WF(n, h) && (if n.form.Compact? then form == n.form else form.General?)
    ensures n == Over(form, n.children)
  {
    if n.form.General? {
      var offs := n.form.offsets;
      forall i | 0 <= i < |offs| ensures offs[i] == Starts(n.children)[i] {
      }
      assert offs == Starts(n.children);
    }
  }

  /** Which child holds position p, and where in it. */
  ghost function Place<T>(cs: seq<Node<T>>, p: nat): (r: (nat, nat))
    requires p < |Flat(cs)|
    ensures r.0 < |cs| && r.1 < |Elems(cs[r.0])|
  {
    var first := |Elems(cs[0])|;
    if p < first then (0, p) else
      var (k, q) := Place(cs[1..], p - first);
      (k + 1, q)
  }

  lemma {:induction false} PlaceAt<T>(cs: seq<Node<T>>, k: nat, p: nat)
    requires k < |cs| && Off(cs, k) <= p < Off(cs, k) + |Elems(cs[k])|
    ensures p < |Flat(cs)| && Place(cs, p) == (k, p - Off(cs, k))
  {
    FlatAt(cs, k);
    if k > 0 {
      OffTail(cs, 1, k);
      assert cs[..1] == [cs[0]];
      FlatOne(cs[0]);
      PlaceAt(cs[1..], k - 1, p - |Elems(cs[0])|);
    }
  }

  // ---- Insertion ----

  /** A leaf with room takes the values; a full one is cut where the value goes in. */
  ghost function GrownLeaf<T>(es: seq<T>, p: nat, req: Insertion<T>): (Node<T>, Option<Node<T>>)
    requires p <= |es|
  {
    if req.NewLeaf? then (Leaf(es), Some(Leaf(req.values)))
    else if |es| < M then (Leaf(Spliced(es, p, Values(req))), None)
    else if p == |es| then (Leaf(es), Some(Leaf(Values(req))))
    else (Leaf(es[..p] + Values(req)), Some(Leaf(es[p..])))
  }

  /** Child k became `c`, with `s` split off behind it; a full node is cut behind `s`, or before it at the end. */
  ghost function Regrown<T>(form: Form, cs: seq<Node<T>>, k: nat, c: Node<T>, s: Option<Node<T>>)
    : (Node<T>, Option<Node<T>>)
    requires k < |cs|
  {
    if s.None? then (Over(form, cs[k := c]), None)
    else if |cs| < M then (Over(form, cs[..k] + [c, s.value] + cs[k + 1..]), None)
    else if k + 1 == |cs| then (Over(form, cs[k := c]), Some(Over(form, [s.value])))
    else (Over(form, cs[..k] + [c, s.value]), Some(Over(form, cs[k + 1..])))
  }

  /** The node after an insertion, and what was split off from it. Only appending keeps a compact node compact. */
  ghost function Grown<T>(n: Node<T>, ndx: Option<nat>, req: Insertion<T>): (Node<T>, Option<Node<T>>)
    requires ndx.Some? ==> ndx.value < |Elems(n)|
  {
    match n
    case Leaf(es) => GrownLeaf(es, Position(ndx, es), req)
    case Inner(form, cs, _) =>
      if cs == [] then (n, None)
      else if ndx.None? then
        var (c, s) := Grown(cs[|cs| - 1], None, req);
        Regrown(form, cs, |cs| - 1, c, s)
      else
        var (k, q) := Place(cs, ndx.value);
        var (c, s) := Grown(cs[k], Some(q), req);
        Regrown(General([]), cs, k, c, s)
  }

  /** The root after an insertion: a root that was split comes under a new one. */
  ghost function GrownRoot<T>(n: Node<T>, ndx: Option<nat>, req: Insertion<T>): Node<T>
    requires ndx.Some? ==> ndx.value < |Elems(n)|
  {
    var (a, b) := Grown(n, ndx, req);
    if b.None? then a else
      Over(if ndx.None? && IsCompact(a) then Compact(|Elems(a)|) else General([]), [a, b.value])
  }

  // ---- Erasure ----

  /** Two nodes small enough to be merged: the first less than half full, both together below three quarters. */
  predicate Mergeable<T>(c: Node<T>, next: Node<T>) {
    NodeSize(c) < M / 2 && NodeSize(c) + NodeSize(next) < M * 3 / 4
  }

  ghost function Fused<T>(c: Node<T>, next: Node<T>): Node<T> {
    if c.Leaf? && next.Leaf? then Leaf(c.elems + next.elems)
    else if c.Inner? && next.Inner? then Over(General([]), c.children + next.children)
    else c
  }

  /** The children after child k became `c`, or vanished: a thin child absorbs the one behind it when both fit. */
  ghost function Thinned<T>(cs: seq<Node<T>>, k: nat, c: Option<Node<T>>): seq<Node<T>>
    requires k < |cs|
  {
    match c
    case None => cs[..k] + cs[k + 1..]
    case Some(c) =>
      if k + 1 < |cs| && Mergeable(c, cs[k + 1]) then cs[..k] + [Fused(c, cs[k + 1])] + cs[k + 2..]
      else cs[k := c]
  }

  /** The node over the children that remain, if any. */
  ghost function Remaining<T>(cs: seq<Node<T>>): Option<Node<T>> {
    if cs == [] then None else Some(Over(General([]), cs))
  }

  /** The node after position p was erased, or nothing when that was its only element. */
  ghost function Shrunk<T>(n: Node<T>, p: nat): Option<Node<T>>
    requires p < |Elems(n)|
  {
    match n
    case Leaf(es) => if |es| == 1 then None else Some(Leaf(Cut(es, p)))
    case Inner(_, cs, _) =>
      var (k, q) := Place(cs, p);
      Remaining(Thinned(cs, k, Shrunk(cs[k], q)))
  }

  /** An only child takes the place of its parent. */
  ghost function Collapsed<T>(n: Node<T>): Node<T> {
    if n.Inner? && |n.children| == 1 then Collapsed(n.children[0]) else n
  }

  ghost function ShrunkRoot<T>(n: Node<T>, p: nat): Node<T>
    requires p < |Elems(n)|
  {
    match n
    case Leaf(es) => Leaf(Cut(es, p))
    case Inner(_, _, _) => if Shrunk(n, p).None? then Leaf([]) else Collapsed(Shrunk(n, p).value)
  }

  // ---- Writing elements ----

  /** The same nodes with the same forms; only the elements may differ. */
  ghost predicate Alike<T>(a: Node<T>, b: Node<T>) {
    match a
    case Leaf(es) => b.Leaf? && |b.elems| == |es|
    case Inner(form, cs, total) =>
      && b.Inner? && b.form == form && b.total == total && |b.children| == |cs|
      && forall i :: 0 <= i < |cs| ==> Alike(cs[i], b.children[i])
  }

  lemma {:induction false} AlikeItself<T>(n: Node<T>)
    ensures Alike(n, n)
  {
    if n.Inner? {
      forall i | 0 <= i < |n.children| ensures Alike(n.children[i], n.children[i]) {
        AlikeItself(n.children[i]);
      }
    }
  }

  /** The node with another value at position p: same nodes, same forms. */
  ghost function Written<T>(n: Node<T>, p: nat, value: T): Node<T>
    requires p < |Elems(n)|
  {
    match n
    case Leaf(es) => Leaf(es[p := value])
    case Inner(form, cs, total) =>
      var (k, q) := Place(cs, p);
      Inner(form, cs[k := Written(cs[k], q, value)], total)
  }
}
