/** Appending a batch of values leaves the very tree that appending them one at a time leaves. */
module BpAppend {
  import opened Options
  import opened BpNode
  import opened BpShape
  import opened BpInner
  import opened BpTree

  /** The tree after the values were appended one at a time. */
  ghost function Appended<T>(n: Node<T>, values: seq<T>): Node<T> {
    if values == [] then n
    else GrownRoot(Appended(n, values[..|values| - 1]), None, One(values[|values| - 1]))
  }

  lemma {:induction false} AppendedStep<T>(n: Node<T>, values: seq<T>, v: T)
    ensures Appended(n, values + [v]) == GrownRoot(Appended(n, values), None, One(v))
  {
    assert (values + [v])[..|values|] == values;
  }

  lemma {:induction false} AppendedTwice<T>(n: Node<T>, a: seq<T>, b: seq<T>)
    ensures Appended(Appended(n, a), b) == Appended(n, a + b)
    decreases |b|
  {
    if b == [] {
      assert a + b == a;
    } else {
      var rest, v := b[..|b| - 1], b[|b| - 1];
      AppendedTwice(n, a, rest);
      assert a + b == a + rest + [v];
      AppendedStep(n, a + rest, v);
    }
  }

  // ---- Values added to the last leaf ----

  lemma {:induction false} FirstOfTail<T>(n: Node<T>, h: nat, v: T)
    requires WF(n, h) && |LastLeaf(n)| < M
    ensures Grown(n, None, Tail([v])) == Grown(n, None, One(v))
  {
    if n.Inner? {
      FirstOfTail(n.children[|n.children| - 1], h - 1, v);
    }
  }

  lemma {:induction false} NextOfTail<T>(n: Node<T>, h: nat, vs: seq<T>, v: T)
    requires WF(n, h) && |LastLeaf(n)| + |vs| + 1 <= M
    ensures var (a, s) := Grown(n, None, Tail(vs));
            s.None? && Grown(a, None, One(v)) == Grown(n, None, Tail(vs + [v])) && Grown(a, None, One(v)).1.None?
  {
    if n.Leaf? {
      var es := n.elems;
      assert Spliced(es + vs, |es + vs|, [v]) == Spliced(es, |es|, vs + [v]);
      assert Spliced(es, |es|, vs) == es + vs;
    } else {
      var cs := n.children;
      var last := |cs| - 1;
      NextOfTail(cs[last], h - 1, vs, v);
      var c := Grown(cs[last], None, Tail(vs)).0;
      assert cs[last := c][last := Grown(c, None, One(v)).0] == cs[last := Grown(c, None, One(v)).0];
    }
  }

  lemma {:induction false} TailIsSingles<T>(n: Node<T>, h: nat, vs: seq<T>)
    requires WF(n, h) && vs != [] && |LastLeaf(n)| + |vs| <= M
    ensures GrownRoot(n, None, Tail(vs)) == Appended(n, vs) && Grown(n, None, Tail(vs)).1.None?
    decreases |vs|
  {
    var rest, v := vs[..|vs| - 1], vs[|vs| - 1];
    assert vs == rest + [v];
    if rest == [] {
      FirstOfTail(n, h, v);
      NextOfTail(n, h, [], v);
      assert [] + [v] == [v];
      assert Appended(n, []) == n;
    } else {
      TailIsSingles(n, h, rest);
      NextOfTail(n, h, rest, v);
    }
  }

  // ---- A new leaf behind a full one ----

  lemma {:induction false} FirstOfLeaf<T>(n: Node<T>, h: nat, v: T)
    requires WF(n, h) && |LastLeaf(n)| == M
    ensures Grown(n, None, NewLeaf([v])) == Grown(n, None, One(v))
  {
    if n.Inner? {
      FirstOfLeaf(n.children[|n.children| - 1], h - 1, v);
    }
  }

  /** The new leaf is the last one, in the part split off if there is one, and takes the next value. */
  lemma {:induction false} NextOfLeaf<T>(n: Node<T>, h: nat, vs: seq<T>, v: T)
    requires WF(n, h) && |LastLeaf(n)| == M && |vs| < M
    ensures var (a, s) := Grown(n, None, NewLeaf(vs));
            Grown(n, None, NewLeaf(vs + [v]))
            == if s.None? then (Grown(a, None, One(v)).0, None) else (a, Some(Grown(s.value, None, One(v)).0))
    ensures var (a, s) := Grown(n, None, NewLeaf(vs));
            Grown(if s.None? then a else s.value, None, One(v)).1.None?
  {
    if n.Leaf? {
      assert Spliced(vs, |vs|, [v]) == vs + [v];
    } else {
      var cs := n.children;
      var last := |cs| - 1;
      NextOfLeaf(cs[last], h - 1, vs, v);
      var (c, s) := Grown(cs[last], None, NewLeaf(vs));
      if s.None? {
        assert cs[last := c][last := Grown(c, None, One(v)).0] == cs[last := Grown(c, None, One(v)).0];
      } else {
        NextBehind(n.form, cs, c, s.value, Grown(s.value, None, One(v)).0, v);
      }
    }
  }

  lemma {:induction false} NextBehind<T>(form: Form, cs: seq<Node<T>>, c: Node<T>, s: Node<T>, s': Node<T>, v: T)
    requires cs != [] && Grown(s, None, One(v)) == (s', None)
    ensures var last := |cs| - 1;
            var (a, b) := Regrown(form, cs, last, c, Some(s));
            var (a', b') := Regrown(form, cs, last, c, Some(s'));
            if b.None? then b'.None? && Grown(a, None, One(v)) == (a', None)
            else b'.Some? && a' == a && Grown(b.value, None, One(v)) == (b'.value, None)
  {
    var last := |cs| - 1;
    var run, run' := cs[..last] + [c, s] + cs[last + 1..], cs[..last] + [c, s'] + cs[last + 1..];
    assert run[|run| - 1] == s && run[|run| - 1 := s'] == run';
    assert [s][0 := s'] == [s'];
  }

  lemma {:induction false} LeafIsSingles<T>(n: Node<T>, h: nat, vs: seq<T>)
    requires WF(n, h) && |LastLeaf(n)| == M && 1 <= |vs| <= M
    ensures GrownRoot(n, None, NewLeaf(vs)) == Appended(n, vs)
    decreases |vs|
  {
    var rest, v := vs[..|vs| - 1], vs[|vs| - 1];
    assert vs == rest + [v];
    if rest == [] {
      FirstOfLeaf(n, h, v);
      assert Appended(n, []) == n;
    } else {
      LeafIsSingles(n, h, rest);
      NextOfLeaf(n, h, rest, v);
      NextUnderRoot(n, rest, v);
      AppendedStep(n, rest, v);
    }
  }

  lemma {:induction false} NextUnderRoot<T>(n: Node<T>, vs: seq<T>, v: T)
    requires var (a, s) := Grown(n, None, NewLeaf(vs));
             && Grown(if s.None? then a else s.value, None, One(v)).1.None?
             && Grown(n, None, NewLeaf(vs + [v]))
                == if s.None? then (Grown(a, None, One(v)).0, None) else (a, Some(Grown(s.value, None, One(v)).0))
    ensures GrownRoot(GrownRoot(n, None, NewLeaf(vs)), None, One(v)) == GrownRoot(n, None, NewLeaf(vs + [v]))
  {
    var (a, s) := Grown(n, None, NewLeaf(vs));
    if s.Some? {
      var s' := Grown(s.value, None, One(v)).0;
      assert [a, s.value][1 := s'] == [a, s'];
    }
  }

  // ---- Appending keeps a compact tree compact ----

  /** What appending `v` makes of the compact node `n`: compact parts, the first one full when there are two. */
  ghost predicate CompactlyGrown<T>(n: Node<T>, h: nat, v: T, a: Node<T>, s: Option<Node<T>>) {
    && WF(a, h) && IsCompact(a)
    && (s.None? ==> Elems(a) == Elems(n) + [v] && (n.Inner? ==> a.Inner? && |a.children| >= |n.children|))
    && (s.Some? ==>
          && WF(s.value, h) && IsCompact(s.value)
          && |Elems(a)| == Pow(h + 1) && Elems(a) + Elems(s.value) == Elems(n) + [v])
  }

  lemma {:induction false} GrownCompact<T>(n: Node<T>, h: nat, v: T)
    requires WF(n, h) && IsCompact(n)
    ensures var (a, s) := Grown(n, None, One(v)); CompactlyGrown(n, h, v, a, s)
  {
    if n.Leaf? {
      assert Pow(1) == M * Pow(0);
      assert Spliced(n.elems, |n.elems|, [v]) == n.elems + [v];
    } else {
      var child := n.children[|n.children| - 1];
      GrownCompact(child, h - 1, v);
      var (c, s) := Grown(child, None, One(v));
      if s.None? {
        WidenedLast(n, h, v, c);
      } else {
        SplitLast(n, h, v, c, s.value);
      }
    }
  }

  lemma {:induction false} LastChild<T>(n: Node<T>, h: nat)
    requires n.Inner? && WF(n, h)
    ensures var last := |n.children| - 1;
            Elems(n) == Flat(n.children[..last]) + Elems(n.children[last]) && n.children[last + 1..] == []
  {
    FlatAt(n.children, |n.children| - 1);
  }

  lemma {:induction false} WidenedLast<T>(n: Node<T>, h: nat, v: T, c: Node<T>)
    requires n.Inner? && WF(n, h) && IsCompact(n)
    requires CompactlyGrown(n.children[|n.children| - 1], h - 1, v, c, None)
    ensures var (a, s) := Regrown(n.form, n.children, |n.children| - 1, c, None); CompactlyGrown(n, h, v, a, s)
  {
    var last := |n.children| - 1;
    LastChild(n, h);
    WithChildOk(n.form, n.children, n.total, h, last, c, 1);
    OverItself(WithChild(n.form, n.children, n.total, last, c, 1), h, n.form);
  }

  lemma {:induction false} SplitLast<T>(n: Node<T>, h: nat, v: T, c: Node<T>, s: Node<T>)
    requires n.Inner? && WF(n, h) && IsCompact(n)
    requires CompactlyGrown(n.children[|n.children| - 1], h - 1, v, c, Some(s))
    ensures var (a, b) := Regrown(n.form, n.children, |n.children| - 1, c, Some(s)); CompactlyGrown(n, h, v, a, b)
  {
    var cs, last := n.children, |n.children| - 1;
    LastChild(n, h);
    assert Widened(cs, last, c, s) == Elems(n) + [v];
    if |cs| < M {
      AddSiblingOk(n.form, cs, n.total, h, last, c, s, 1);
      OverItself(WithSibling(n.form, cs, n.total, last, c, s, 1), h, n.form);
    } else {
      SplitAtEndOk(n.form, cs, n.total, h, last, c, s, 1);
      var (a, b) := EndHalves(n.form, cs, last, c, s);
      OverItself(a, h, n.form);
      OverItself(b, h, n.form);
    }
  }

  lemma {:induction false} GrownRootCompact<T>(n: Node<T>, h: nat, v: T) returns (h': nat)
    requires RootWF(n, h) && IsCompact(n)
    ensures var r := GrownRoot(n, None, One(v)); RootWF(r, h') && IsCompact(r) && Elems(r) == Elems(n) + [v]
  {
    h' := h;
    if n == Leaf([]) {
      return;
    }
    GrownCompact(n, h, v);
    var (a, s) := Grown(n, None, One(v));
    if s.Some? {
      h' := h + 1;
      NewRootOk(a, s.value, h, true);
      OverItself(Inner(Compact(|Elems(a)|), [a, s.value], |Elems(a)| + |Elems(s.value)|), h + 1, Compact(|Elems(a)|));
    }
  }

  lemma {:induction false} AppendedCompact<T>(values: seq<T>) returns (h: nat)
    ensures var r := Appended(Leaf([]), values); RootWF(r, h) && IsCompact(r) && Elems(r) == values
  {
    if values == [] {
      h := 0;
    } else {
      h := AppendedCompact(values[..|values| - 1]);
      h := GrownRootCompact(Appended(Leaf([]), values[..|values| - 1]), h, values[|values| - 1]);
    }
  }
}
