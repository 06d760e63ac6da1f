/** Images of B+tree nodes as they lie in node memory, and the tree invariants. */
module BpNode {

  type NodeLimit = n: nat | n >= 2 witness 2

  /** LLBT_MAX_BPNODE_SIZE, a build-time setting; every result holds for each value of at least two. */
  const M: NodeLimit

  /** Slot 0 of an inner node: a fixed element count per child, or the array of cumulative counts. */
  datatype Form = Compact(elemsPerChild: nat) | General(offsets: seq<nat>)

  datatype Node<T> =
    | Leaf(elems: seq<T>)
    | Inner(form: Form, children: seq<Node<T>>, total: nat)

  predicate IsCompact<T>(n: Node<T>) {
    n.Leaf? || n.form.Compact?
  }

  /** The elements of a subtree, left to right. */
  function Elems<T>(n: Node<T>): seq<T>
    decreases n, 0
  {
    match n
    case Leaf(es) => es
    case Inner(_, cs, _) => Flat(cs)
  }

  function Flat<T>(cs: seq<Node<T>>): seq<T>
    decreases cs, 1
  {
    if cs == [] then [] else Elems(cs[0]) + Flat(cs[1..])
  }

  /** How many elements precede child `k`. */
  function Off<T>(cs: seq<Node<T>>, k: nat): nat
    requires k <= |cs|
  {
    |Flat(cs[..k])|
  }

  function Pow(h: nat): nat {
    if h == 0 then 1 else M * Pow(h - 1)
  }

  ghost predicate WF<T>(n: Node<T>, h: nat)
    decreases h, 0
  {
    match n
    case Leaf(es) => h == 0 && 1 <= |es| <= M
    case Inner(form, cs, total) =>
      && h > 0
      && 1 <= |cs| <= M
      && total == |Flat(cs)|
      && AllWF(cs, h - 1)
      && FormOk(form, cs, h)
  }

  ghost predicate AllWF<T>(cs: seq<Node<T>>, h: nat)
    decreases h, 1
  {
    forall i :: 0 <= i < |cs| ==> WF(cs[i], h)
  }

  ghost predicate FormOk<T>(form: Form, cs: seq<Node<T>>, h: nat)
    requires 1 <= |cs|
  {
    match form
    case General(offs) => OffsetsOk(offs, cs)
    case Compact(e) =>
      && e == Pow(h)
      && (forall i :: 0 <= i < |cs| ==> IsCompact(cs[i]))
      && (forall i :: 0 <= i < |cs| - 1 ==> |Elems(cs[i])| == e)
  }

  /** Entry i of the offsets array is where child i + 1 starts. */
  ghost predicate OffsetsOk<T>(offs: seq<nat>, cs: seq<Node<T>>)
    requires 1 <= |cs|
  {
    && |offs| == |cs| - 1
    && (forall i :: 0 <= i < |offs| ==> offs[i] == Off(cs, i + 1))
  }

  ghost predicate RootWF<T>(n: Node<T>, h: nat) {
    if n.Leaf? then h == 0 && |n.elems| <= M else WF(n, h) && |n.children| >= 2
  }

  // ---- Elements of a run of children ----

  lemma {:induction false} FlatAppend<T>(a: seq<Node<T>>, b: seq<Node<T>>)
    ensures Flat(a + b) == Flat(a) + Flat(b)
  {
    if a == [] {
      assert a + b == b;
    } else {
      assert (a + b)[1..] == a[1..] + b;
      FlatAppend(a[1..], b);
    }
  }

  lemma {:induction false} FlatOne<T>(n: Node<T>)
    ensures Flat([n]) == Elems(n)
  {
    assert [n][1..] == [];
  }

  lemma {:induction false} FlatSplice<T>(a: seq<Node<T>>, mid: seq<Node<T>>, b: seq<Node<T>>)
    ensures Flat(a + mid + b) == Flat(a) + Flat(mid) + Flat(b)
  {
    FlatAppend(a + mid, b);
    FlatAppend(a, mid);
  }

  /** A run cut around the stretch [i, j). */
  lemma {:induction false} FlatCut<T>(cs: seq<Node<T>>, i: nat, j: nat)
    requires i <= j <= |cs|
    ensures Flat(cs) == Flat(cs[..i]) + Flat(cs[i..j]) + Flat(cs[j..])
  {
    var a, mid, b := cs[..i], cs[i..j], cs[j..];
    assert cs == a + mid + b;
    FlatSplice(a, mid, b);
  }

  lemma {:induction false} OffStep<T>(cs: seq<Node<T>>, k: nat)
    requires k < |cs|
    ensures Off(cs, k + 1) == Off(cs, k) + |Elems(cs[k])|
  {
    assert cs[..k + 1] == cs[..k] + [cs[k]];
    FlatAppend(cs[..k], [cs[k]]);
    FlatOne(cs[k]);
  }

  lemma {:induction false} OffEnd<T>(cs: seq<Node<T>>)
    ensures Off(cs, |cs|) == |Flat(cs)|
  {
    assert cs[..|cs|] == cs;
  }

  lemma {:induction false} OffMono<T>(cs: seq<Node<T>>, i: nat, j: nat)
    requires i <= j <= |cs|
    ensures Off(cs, i) <= Off(cs, j)
    decreases j
  {
    if i < j {
      OffMono(cs, i, j - 1);
      OffStep(cs, j - 1);
    }
  }

  lemma {:induction false} WFNonEmpty<T>(n: Node<T>, h: nat)
    requires WF(n, h)
    ensures |Elems(n)| >= 1
  {
    if n.Inner? {
      WFNonEmpty(n.children[0], h - 1);
    }
  }

  /** Content around child k. */
  lemma {:induction false} FlatAt<T>(cs: seq<Node<T>>, k: nat)
    requires k < |cs|
    ensures Flat(cs) == Flat(cs[..k]) + Elems(cs[k]) + Flat(cs[k + 1..])
    ensures Off(cs, k) + |Elems(cs[k])| <= |Flat(cs)|
    ensures Elems(cs[k]) == Flat(cs)[Off(cs, k)..Off(cs, k) + |Elems(cs[k])|]
  {
    FlatCut(cs, k, k + 1);
    assert cs[k..k + 1] == [cs[k]];
    FlatOne(cs[k]);
  }

  /** Where the offsets of a spliced run come from. */
  lemma {:induction false} OffSplice<T>(a: seq<Node<T>>, mid: seq<Node<T>>, b: seq<Node<T>>, j: nat)
    requires j <= |a| + |mid| + |b|
    ensures j <= |a| ==> Off(a + mid + b, j) == Off(a, j)
    ensures |a| <= j <= |a| + |mid| ==> Off(a + mid + b, j) == |Flat(a)| + Off(mid, j - |a|)
    ensures |a| + |mid| <= j ==> Off(a + mid + b, j) == |Flat(a)| + |Flat(mid)| + Off(b, j - |a| - |mid|)
  {
    var s := a + mid + b;
    if j <= |a| {
      assert s[..j] == a[..j];
    }
    if |a| <= j <= |a| + |mid| {
      assert s[..j] == a + mid[..j - |a|];
      FlatAppend(a, mid[..j - |a|]);
    }
    if |a| + |mid| <= j {
      assert s[..j] == a + mid + b[..j - |a| - |mid|];
      FlatSplice(a, mid, b[..j - |a| - |mid|]);
    }
  }

  lemma {:induction false} OffTail<T>(cs: seq<Node<T>>, k: nat, j: nat)
    requires k <= j <= |cs|
    ensures Off(cs, j) == Off(cs, k) + Off(cs[k..], j - k)
  {
    assert cs[..j] == cs[..k] + cs[k..][..j - k];
    FlatAppend(cs[..k], cs[k..][..j - k]);
  }

  // ---- Sizes ----

  lemma {:induction false} FlatBound<T>(cs: seq<Node<T>>, e: nat)
    requires forall i :: 0 <= i < |cs| ==> |Elems(cs[i])| <= e
    ensures |Flat(cs)| <= |cs| * e
  {
    if cs != [] {
      FlatBound(cs[1..], e);
      assert |cs| * e == e + (|cs| - 1) * e;
    }
  }

  lemma {:induction false} FlatExact<T>(cs: seq<Node<T>>, e: nat)
    requires forall i :: 0 <= i < |cs| ==> |Elems(cs[i])| == e
    ensures |Flat(cs)| == |cs| * e
  {
    if cs != [] {
      FlatExact(cs[1..], e);
      assert |cs| * e == e + (|cs| - 1) * e;
    }
  }

  /** A node of height h holds at most M^(h+1) elements. */
  lemma {:induction false} SizeBound<T>(n: Node<T>, h: nat)
    requires WF(n, h)
    ensures |Elems(n)| <= Pow(h + 1)
  {
    assert Pow(h + 1) == M * Pow(h);
    if n.Leaf? {
      assert Pow(h) == 1;
    } else {
      forall i | 0 <= i < |n.children| ensures |Elems(n.children[i])| <= Pow(h) {
        SizeBound(n.children[i], h - 1);
      }
      FlatBound(n.children, Pow(h));
      MulMono(|n.children|, M, Pow(h));
    }
  }

  lemma {:induction false} MulMono(a: nat, b: nat, c: nat)
    requires a <= b
    ensures a * c <= b * c
  {
    assert b * c == a * c + (b - a) * c;
  }

  lemma {:induction false} PowPos(h: nat)
    ensures Pow(h) >= 1
  {
    if h > 0 {
      PowPos(h - 1);
    }
  }

  /** In compact form child k starts at k times the element count per child. */
  lemma {:induction false} CompactOff<T>(cs: seq<Node<T>>, e: nat, k: nat)
    requires k < |cs|
    requires forall i :: 0 <= i < |cs| - 1 ==> |Elems(cs[i])| == e
    ensures Off(cs, k) == k * e
  {
    FlatExact(cs[..k], e);
  }

  /** Offsets of well-formed children strictly increase. */
  lemma {:induction false} OffStrict<T>(cs: seq<Node<T>>, h: nat, i: nat, j: nat)
    requires AllWF(cs, h)
    requires i < j <= |cs|
    ensures Off(cs, i) < Off(cs, j)
  {
    WFNonEmpty(cs[i], h);
    OffStep(cs, i);
    OffMono(cs, i + 1, j);
  }

  lemma {:induction false} PowStep(h: nat, k: nat)
    requires k + 1 == M
    ensures Pow(h + 1) == k * Pow(h) + Pow(h)
  {
    var p := Pow(h);
    assert (k + 1) * p == k * p + p;
  }

  // ---- Well-formed runs ----

  lemma {:induction false} AllWFAt<T>(cs: seq<Node<T>>, h: nat, k: nat)
    requires AllWF(cs, h) && k < |cs|
    ensures WF(cs[k], h)
  {
  }

  lemma {:induction false} AllWFAppend<T>(a: seq<Node<T>>, b: seq<Node<T>>, h: nat)
    requires AllWF(a, h) && AllWF(b, h)
    ensures AllWF(a + b, h)
  {
  }

  lemma {:induction false} AllWFSub<T>(cs: seq<Node<T>>, h: nat, i: nat, j: nat)
    requires AllWF(cs, h) && i <= j <= |cs|
    ensures AllWF(cs[i..j], h)
  {
  }

  /** Children k..j replaced by a well-formed run. */
  lemma {:induction false} AllWFSplice<T>(cs: seq<Node<T>>, h: nat, k: nat, j: nat, mid: seq<Node<T>>)
    requires AllWF(cs, h) && AllWF(mid, h) && k <= j <= |cs|
    ensures AllWF(cs[..k] + mid + cs[j..], h)
  {
    AllWFSub(cs, h, 0, k);
    AllWFSub(cs, h, j, |cs|);
    AllWFAppend(cs[..k], mid, h);
    AllWFAppend(cs[..k] + mid, cs[j..], h);
  }
}
