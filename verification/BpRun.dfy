/** Any run of tree operations is the same run on a plain list. */
module BpRun {
  import opened BpTree
  import BpNode
  import BpMany
  import BpBulk

  datatype Op<T> =
    | Insert(n: nat, value: T)
    | Add(value: T)
    | Erase(p: nat)
    | Set(p: nat, value: T)
    | Get(p: nat)
    | SetMany(ps: seq<nat>, vs: seq<T>)
    | EraseMany(ps: seq<nat>)
    | AddFrom(vs: seq<T>)
    | Clear

  /** The list with vs[i] written at ps[i], one after the other. */
  function WriteAll<T>(s: seq<T>, ps: seq<nat>, vs: seq<T>): (r: seq<T>)
    requires |ps| == |vs| && BpMany.InRange(ps, |s|)
    ensures |r| == |s|
    decreases |ps|
  {
    if ps == [] then s else
      assert forall i :: 0 <= i < |ps[1..]| ==> ps[1..][i] == ps[i + 1];
      WriteAll(s[ps[0] := vs[0]], ps[1..], vs[1..])
  }

  lemma {:induction false} WriteAllWrites<T>(s: seq<T>, ps: seq<nat>, vs: seq<T>)
    requires |ps| == |vs| && BpMany.InRange(ps, |s|) && BpMany.SortedUnique(ps)
    ensures BpMany.Wrote(s, WriteAll(s, ps, vs), 0, ps, vs)
    decreases |ps|
  {
    if ps != [] {
      assert forall i :: 0 <= i < |ps[1..]| ==> ps[1..][i] == ps[i + 1];
      var s1, r := s[ps[0] := vs[0]], WriteAll(s, ps, vs);
      WriteAllWrites(s1, ps[1..], vs[1..]);
      assert 0 + ps[0] !in ps[1..];
      assert r[ps[0]] == vs[0];
      forall i | 0 <= i < |ps| ensures r[ps[i]] == vs[i] {
        if i > 0 {
          assert ps[1..][i - 1] == ps[i];
        }
      }
      forall j | 0 <= j < |s| && 0 + j !in ps ensures r[j] == s[j] {
        assert 0 + j !in ps[1..];
      }
    }
  }

  lemma {:induction false} WroteIsWriteAll<T>(s: seq<T>, s': seq<T>, ps: seq<nat>, vs: seq<T>)
    requires |ps| == |vs| && BpMany.InRange(ps, |s|) && BpMany.SortedUnique(ps) && BpMany.Wrote(s, s', 0, ps, vs)
    ensures s' == WriteAll(s, ps, vs)
  {
    WriteAllWrites(s, ps, vs);
    var r := WriteAll(s, ps, vs);
    forall j | 0 <= j < |s| ensures s'[j] == r[j] {
      if j in ps {
        var i :| 0 <= i < |ps| && ps[i] == j;
        assert s'[ps[i] - 0] == vs[i] && r[ps[i] - 0] == vs[i];
      } else {
        assert 0 + j !in ps;
      }
    }
  }

  /** What a caller owes: positions that exist, and a size that a word can hold. */
  predicate Legal<T>(op: Op<T>, s: seq<T>) {
    match op
    case Insert(n, _) => n <= |s| < NPOS
    case Add(_) => |s| < NPOS
    case Erase(p) => p < |s|
    case Set(p, _) => p < |s|
    case Get(p) => p < |s|
    case SetMany(ps, vs) => |ps| == |vs|
    case EraseMany(_) => true
    case AddFrom(vs) => |s| + |vs| <= NPOS
    case Clear => true
  }

  /** The operation on a list. Bulk operations with unsorted or missing positions change nothing. */
  function Apply<T>(op: Op<T>, s: seq<T>): seq<T>
    requires Legal(op, s)
  {
    match op
    case Insert(n, v) => s[..n] + [v] + s[n..]
    case Add(v) => s + [v]
    case Erase(p) => s[..p] + s[p + 1..]
    case Set(p, v) => s[p := v]
    case Get(_) => s
    case SetMany(ps, vs) =>
      if BpMany.SortedUnique(ps) && BpMany.InRange(ps, |s|) then WriteAll(s, ps, vs) else s
    case EraseMany(ps) =>
      if BpMany.SortedUnique(ps) && BpMany.InRange(ps, |s|) then BpMany.Kept(s, 0, BpMany.AsSet(ps)) else s
    case AddFrom(vs) => s + vs
    case Clear => []
  }

  predicate LegalRun<T>(ops: seq<Op<T>>, s: seq<T>) {
    ops == [] || (Legal(ops[0], s) && LegalRun(ops[1..], Apply(ops[0], s)))
  }

  function ApplyAll<T>(ops: seq<Op<T>>, s: seq<T>): seq<T>
    requires LegalRun(ops, s)
  {
    if ops == [] then s else ApplyAll(ops[1..], Apply(ops[0], s))
  }

  /** What the reads of a run return. */
  function Reads<T>(ops: seq<Op<T>>, s: seq<T>): seq<T>
    requires LegalRun(ops, s)
  {
    if ops == [] then [] else
      (if ops[0].Get? then [s[ops[0].p]] else []) + Reads(ops[1..], Apply(ops[0], s))
  }

  method Step<T>(t: BPlusTree<T>, op: Op<T>) returns (read: seq<T>)
    requires t.Valid() && Legal(op, t.Contents())
    modifies t
    ensures t.Valid() && t.Contents() == Apply(op, old(t.Contents()))
    ensures read == if op.Get? then [old(t.Contents())[op.p]] else []
  {
    read := [];
    match op {
      case Insert(n, v) => t.Insert(n, v);
      case Add(v) => t.Add(v);
      case Erase(p) => t.Erase(p);
      case Set(p, v) => t.Set(p, v);
      case Get(p) =>
        var v := t.Get(p);
        read := [v];
      case SetMany(ps, vs) =>
        ghost var s := t.Contents();
        var r := BpMany.SetMany(t, ps, vs);
        if r.Ok? {
          WroteIsWriteAll(s, t.Contents(), ps, vs);
        }
      case EraseMany(ps) =>
        var r := BpMany.EraseMany(t, ps);
      case AddFrom(vs) => BpBulk.AddFrom(t, vs);
      case Clear => t.Clear();
    }
  }

  /** After any legal run the tree holds what the list holds, and every read returned what the list had. */
  method Run<T>(t: BPlusTree<T>, ops: seq<Op<T>>) returns (got: seq<T>)
    requires t.Valid() && LegalRun(ops, t.Contents())
    modifies t
    ensures t.Valid() && t.Contents() == ApplyAll(ops, old(t.Contents()))
    ensures got == Reads(ops, old(t.Contents()))
    decreases |ops|
  {
    if ops == [] {
      return [];
    }
    var first := Step(t, ops[0]);
    var rest := Run(t, ops[1..]);
    got := first + rest;
  }
}
