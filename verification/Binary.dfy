/** ArrayBinary: a leaf of optional byte strings that changes its representation as values grow. */
module Binary {
  import opened Options
  import opened PackedBlocks
  import opened PackedBlobs

  const SMALL_MAX: nat := 64
  const PACK_FROM: nat := 4096

  datatype Kind = Small | Big | Packed

  ghost predicate AllSmall(values: seq<Value>) {
    forall i :: 0 <= i < |values| ==> Size(values[i]) <= SMALL_MAX
  }

  function TotalSize(values: seq<Value>): nat {
    if values == [] then 0 else TotalSize(values[..|values| - 1]) + Size(values[|values| - 1])
  }

  /** Total size, and whether a value is too large for small blobs. */
  method Measure(values: seq<Value>) returns (large: bool, total: nat)
    ensures large <==> !AllSmall(values)
    ensures total == TotalSize(values)
  {
    large, total := false, 0;
    for i := 0 to |values|
      invariant large <==> !AllSmall(values[..i])
      invariant total == TotalSize(values[..i])
    {
      assert values[..i + 1][..i] == values[..i];
      MoreSmall(values, i);
      large := large || Size(values[i]) > SMALL_MAX;
      total := total + Size(values[i]);
    }
    assert values[..|values|] == values;
  }

  lemma MoreSmall(values: seq<Value>, i: nat)
    requires i < |values|
    ensures AllSmall(values[..i + 1]) <==> AllSmall(values[..i]) && Size(values[i]) <= SMALL_MAX
  {
    assert values[..i + 1][i] == values[i];
    forall k | 0 <= k < i ensures values[..i + 1][k] == values[..i][k] {
    }
  }

  lemma SliceMore(s: seq<Value>, i: nat, k: nat)
    requires i <= k < |s|
    ensures s[i..k] + [s[k]] == s[i..k + 1]
  {
  }

  lemma PartsUpTo(a: seq<Value>, b: seq<Value>, n: nat)
    ensures AllUpTo(a + b, n) <==> AllUpTo(a, n) && AllUpTo(b, n)
  {
    if AllUpTo(a + b, n) {
      forall i | 0 <= i < |a| ensures Size(a[i]) <= n {
        assert (a + b)[i] == a[i];
      }
      forall i | 0 <= i < |b| ensures Size(b[i]) <= n {
        assert (a + b)[|a| + i] == b[i];
      }
    }
  }

  lemma OneUpTo(values: seq<Value>, i: nat, n: nat)
    requires AllUpTo(values, n) && i < |values|
    ensures AllUpTo([values[i]], n)
  {
  }

  lemma InsertUpTo(s: seq<Value>, i: nat, v: Value, n: nat)
    requires AllUpTo(s, n) && AllUpTo([v], n) && i <= |s|
    ensures AllUpTo(s[..i] + [v] + s[i..], n)
  {
    assert Size([v][0]) <= n;
  }

  lemma {:induction false} WrittenUpTo(s: seq<Value>, positions: seq<nat>, base: nat, values: seq<Value>, k: nat,
                                       n: nat)
    requires k <= |positions| == |values| && Within(positions, base, |s|, k)
    requires AllUpTo(s, n) && AllUpTo(values, n)
    ensures AllUpTo(WrittenTo(s, positions, base, values, k), n)
  {
    if k > 0 {
      WrittenUpTo(s, positions, base, values, k - 1, n);
    }
  }

  /** A plain leaf is repacked for values that are not all small and are many bytes together with what it holds. */
  ghost predicate WorthPacking(plain: seq<Value>, values: seq<Value>) {
    !(AllSmall(plain) && AllSmall(values)) && TotalSize(plain) + TotalSize(values) > PACK_FROM
  }

  /** A leaf of small blobs becomes one of big blobs when a value needs it, and nothing makes it small again. */
  ghost function NextKind(kind: Kind, values: seq<Value>): Kind {
    if kind.Small? && !AllSmall(values) then Big else kind
  }

  lemma NextKindOne(kind: Kind, v: Value)
    ensures NextKind(kind, [v]) == if kind.Small? && Size(v) > SMALL_MAX then Big else kind
  {
    assert [v][0] == v;
  }

  lemma NextKindMore(kind: Kind, values: seq<Value>, i: nat)
    requires i < |values|
    ensures NextKind(NextKind(kind, values[..i]), [values[i]]) == NextKind(kind, values[..i + 1])
  {
    MoreSmall(values, i);
    NextKindOne(NextKind(kind, values[..i]), values[i]);
  }

  class BinaryLeaf {
    var kind: Kind
    var plain: seq<Value>
    var packed: PackedLeaf

    ghost predicate Valid()
      reads this, packed
    {
      && packed.Valid() && (kind.Small? ==> AllSmall(plain))
      && AllUpTo(if kind.Packed? then packed.Contents() else plain, Limit())
    }

    /** How large a value the leaf can take as it is. Larger ones are cut into chunks, or refused by a packed leaf. */
    function Limit(): nat
      reads this
    {
      if kind.Packed? then MAX_STORED else MAX_BINARY_SIZE
    }

    ghost function Contents(): seq<Value>
      requires Valid()
      reads this, packed
    {
      if kind.Packed? then packed.Contents() else plain
    }

    constructor ()
      ensures Valid() && fresh(packed) && Contents() == [] && kind.Small?
    {
      kind, plain := Small, [];
      packed := new PackedLeaf();
    }

    method Count() returns (n: nat)
      requires Valid()
      ensures n == |Contents()|
    {
      n := if kind.Packed? then |packed.order| else |plain|;
    }

    method Get(i: nat) returns (v: Value)
      requires Valid() && i < |Contents()|
      ensures v == Contents()[i]
    {
      if kind.Packed? {
        v := packed.Get(i);
      } else {
        v := plain[i];
      }
    }

    /** The values from i on. */
    method Values(i: nat) returns (values: seq<Value>)
      requires Valid() && i <= |Contents()|
      ensures values == Contents()[i..]
    {
      ghost var all := Contents();
      values := [];
      var n := Count();
      for k := i to n
        invariant values == all[i..k]
      {
        var v := Get(k);
        SliceMore(all, i, k);
        values := values + [v];
      }
      assert all[i..n] == all[i..];
    }

    /** Make the leaf a packed one with the given values, or change nothing if that is refused. */
    method ReplaceWithPacked(values: seq<Value>) returns (ok: bool)
      modifies this
      ensures ok <==> values != [] && Packable(values)
      ensures ok ==> fresh(packed) && kind.Packed? && Valid() && Contents() == values && packed.Normal()
      ensures !ok ==> unchanged(this)
    {
      var replacement := new PackedLeaf();
      ok := replacement.Create(values);
      if ok {
        packed, kind := replacement, Packed;
      }
    }

    method ReplaceWithEmpty()
      requires Valid()
      modifies this
      ensures packed == old(packed) && kind.Small? && Valid() && Contents() == []
    {
      kind, plain := Small, [];
    }

    /** Change from small to big blobs if the value needs it; a big leaf stays big. */
    method UpgradeLeaf(valueSize: nat) returns (big: bool)
      requires Valid() && !kind.Packed?
      modifies this`kind
      ensures Valid() && !kind.Packed? && plain == old(plain)
      ensures big == kind.Big? && (big <==> old(kind).Big? || valueSize > SMALL_MAX)
    {
      if kind.Big? {
        return true;
      }
      if valueSize <= SMALL_MAX {
        return false;
      }
      kind := Big;
      big := true;
    }

    method Add(v: Value)
      requires Valid() && AllUpTo([v], Limit())
      modifies this, packed
      ensures packed == old(packed) && Valid() && Contents() == old(Contents()) + [v]
      ensures kind == NextKind(old(kind), [v]) && packed.chunks == old(packed.chunks)
    {
      PartsUpTo(Contents(), [v], Limit());
      if kind.Packed? {
        packed.Append([v]);
      } else {
        PlainAdd(v);
      }
    }

    method PlainAdd(v: Value)
      requires Valid() && !kind.Packed? && AllUpTo(plain + [v], MAX_BINARY_SIZE)
      modifies this`kind, this`plain
      ensures Valid() && kind == NextKind(old(kind), [v]) && plain == old(plain) + [v]
    {
      NextKindOne(kind, v);
      var big := UpgradeLeaf(Size(v));
      plain := plain + [v];
    }

    /** Append values; a plain leaf becomes packed if that is worth it and possible. */
    method Append(values: seq<Value>)
      requires Valid() && AllUpTo(values, Limit())
      modifies this, packed
      ensures (packed == old(packed) || fresh(packed)) && Valid() && Contents() == old(Contents()) + values
      ensures kind.Packed? <==>
                || old(kind).Packed?
                || (values != [] && WorthPacking(old(plain), values) && Packable(old(plain) + values))
      ensures kind.Packed? && !old(kind).Packed? ==> packed.Normal()
      ensures !kind.Packed? ==> kind == NextKind(old(kind), values)
    {
      ghost var was := Contents();
      PartsUpTo(was, values, Limit());
      if |values| == 0 {
        assert was + values == was;
        return;
      }
      if kind.Packed? {
        packed.Append(values);
        return;
      }
      var large, total := Measure(plain);
      var large', total' := Measure(values);
      if (large || large') && total + total' > PACK_FROM {
        var all := plain + values;
        var ok := CanPack(all);
        if ok {
          ok := ReplaceWithPacked(all);
          return;
        }
      }
      AddAll(values);
    }

    /** Add values one by one. */
    method AddAll(values: seq<Value>)
      requires Valid() && AllUpTo(values, Limit())
      modifies this, packed
      ensures packed == old(packed) && Valid() && Contents() == old(Contents()) + values
      ensures kind == NextKind(old(kind), values)
    {
      ghost var was := Contents();
      for i := 0 to |values|
        invariant packed == old(packed) && Valid() && Contents() == was + values[..i]
        invariant kind == NextKind(old(kind), values[..i])
      {
        OneUpTo(values, i, Limit());
        NextKindMore(old(kind), values, i);
        Add(values[i]);
        Grown(was, values, i, i + 1);
      }
      assert values[..|values|] == values;
    }

    method Set(i: nat, v: Value)
      requires Valid() && i < |Contents()| && AllUpTo([v], Limit())
      modifies this, packed
      ensures packed == old(packed) && Valid() && Contents() == old(Contents())[i := v]
      ensures kind == NextKind(old(kind), [v])
    {
      if kind.Packed? {
        PackedSet(i, v);
      } else {
        PlainSet(i, v);
      }
    }

    method PackedSet(i: nat, v: Value)
      requires Valid() && kind.Packed? && i < |Contents()| && Storable([v])
      modifies packed
      ensures Valid() && Contents() == old(Contents())[i := v]
    {
      ghost var was := Contents();
      assert Size([v][0]) <= MAX_STORED;
      packed.SetMany([i], [v], 0);
      assert WrittenTo(was, [i], 0, [v], 0) == was;
    }

    method SetMany(positions: seq<nat>, values: seq<Value>, base: nat)
      requires Valid() && |positions| == |values| && AllUpTo(values, Limit())
      requires Within(positions, base, |Contents()|, |positions|)
      modifies this, packed
      ensures packed == old(packed) && Valid() && kind == NextKind(old(kind), values)
      ensures Contents() == WrittenTo(old(Contents()), positions, base, values, |values|)
    {
      if kind.Packed? {
        WrittenUpTo(Contents(), positions, base, values, |values|, MAX_STORED);
        packed.SetMany(positions, values, base);
      } else {
        SetEach(positions, values, base);
      }
    }

    /** Overwrite positions of a plain leaf one by one. */
    method SetEach(positions: seq<nat>, values: seq<Value>, base: nat)
      requires Valid() && !kind.Packed? && |positions| == |values| && AllUpTo(values, MAX_BINARY_SIZE)
      requires Within(positions, base, |plain|, |positions|)
      modifies this`kind, this`plain
      ensures Valid() && kind == NextKind(old(kind), values)
      ensures plain == WrittenTo(old(plain), positions, base, values, |values|)
    {
      ghost var was := plain;
      for i := 0 to |values|
        invariant Within(positions, base, |was|, i) && Valid() && kind == NextKind(old(kind), values[..i])
        invariant plain == WrittenTo(was, positions, base, values, i)
      {
        NextKindMore(old(kind), values, i);
        WithinLess(positions, base, |was|, i + 1, |positions|);
        SetNext(positions, values, base, i, was);
      }
      assert values[..|values|] == values;
    }

    /** Overwrite the position that entry i names. */
    method SetNext(positions: seq<nat>, values: seq<Value>, base: nat, i: nat, ghost was: seq<Value>)
      requires Valid() && !kind.Packed? && i < |positions| == |values| && AllUpTo(values, MAX_BINARY_SIZE)
      requires Within(positions, base, |was|, i + 1) && plain == WrittenTo(was, positions, base, values, i)
      modifies this`kind, this`plain
      ensures Valid() && kind == NextKind(old(kind), [values[i]])
      ensures plain == WrittenTo(was, positions, base, values, i + 1)
    {
      OneUpTo(values, i, MAX_BINARY_SIZE);
      PlainSet(positions[i] - base, values[i]);
    }

    method PlainSet(i: nat, v: Value)
      requires Valid() && !kind.Packed? && i < |plain| && AllUpTo([v], MAX_BINARY_SIZE)
      modifies this`kind, this`plain
      ensures Valid() && kind == NextKind(old(kind), [v]) && plain == old(plain)[i := v]
    {
      NextKindOne(kind, v);
      assert Size([v][0]) <= MAX_BINARY_SIZE;
      var big := UpgradeLeaf(Size(v));
      plain := plain[i := v];
    }

    method Insert(i: nat, v: Value)
      requires Valid() && i <= |Contents()| && AllUpTo([v], Limit())
      modifies this, packed
      ensures packed == old(packed) && Valid() && Contents() == old(Contents())[..i] + [v] + old(Contents())[i..]
      ensures kind == NextKind(old(kind), [v])
    {
      InsertUpTo(Contents(), i, v, Limit());
      if kind.Packed? {
        packed.Insert(i, v);
      } else {
        PlainInsert(i, v);
      }
    }

    method PlainInsert(i: nat, v: Value)
      requires Valid() && !kind.Packed? && i <= |plain| && AllUpTo(plain[..i] + [v] + plain[i..], MAX_BINARY_SIZE)
      modifies this`kind, this`plain
      ensures Valid() && kind == NextKind(old(kind), [v]) && plain == old(plain)[..i] + [v] + old(plain)[i..]
    {
      NextKindOne(kind, v);
      var big := UpgradeLeaf(Size(v));
      plain := plain[..i] + [v] + plain[i..];
    }

    method Erase(i: nat)
      requires Valid() && i < |Contents()|
      modifies this, packed
      ensures packed == old(packed) && Valid() && Contents() == old(Contents())[..i] + old(Contents())[i + 1..]
      ensures kind == old(kind)
    {
      if kind.Packed? {
        packed.Erase(i);
      } else {
        plain := plain[..i] + plain[i + 1..];
      }
    }

    method Truncate(i: nat)
      requires Valid() && i <= |Contents()|
      modifies this, packed
      ensures packed == old(packed) && Valid() && Contents() == old(Contents())[..i] && kind == old(kind)
    {
      if kind.Packed? {
        packed.Truncate(i);
      } else {
        plain := plain[..i];
      }
    }

    /** Move the values from i on to the end of another leaf. */
    method Move(dst: BinaryLeaf, i: nat)
      requires Valid() && dst.Valid() && dst != this && dst.packed != packed && i <= |Contents()|
      requires AllUpTo(Contents()[i..], dst.Limit())
      modifies this, packed, dst, dst.packed
      ensures Valid() && dst.Valid()
      ensures Contents() == old(Contents())[..i] && dst.Contents() == old(dst.Contents()) + old(Contents())[i..]
      ensures kind == old(kind)
    {
      CopyTo(dst, i);
      Truncate(i);
    }

    method CopyTo(dst: BinaryLeaf, i: nat)
      requires Valid() && dst.Valid() && dst != this && dst.packed != packed && i <= |Contents()|
      requires AllUpTo(Contents()[i..], dst.Limit())
      modifies dst, dst.packed
      ensures (dst.packed == old(dst.packed) || fresh(dst.packed)) && dst.Valid()
      ensures dst.Contents() == old(dst.Contents()) + Contents()[i..]
    {
      var moved := Values(i);
      dst.Append(moved);
    }

    method Clear()
      requires Valid()
      modifies this
      ensures packed == old(packed) && Valid() && Contents() == []
      ensures kind == if old(kind).Packed? then Small else old(kind)
    {
      if kind.Packed? {
        ReplaceWithEmpty();
      } else {
        plain := [];
      }
    }

    /**
     * Rebuild a packed leaf that has changed; the list stays, and the leaf needs no further normalising. It is refused,
     * and nothing changes, if the leaf has taken a value that a packed leaf cannot be made of.
     */
    method NormalizePacked() returns (changed: Option<bool>)
      requires Valid()
      modifies this
      ensures (packed == old(packed) || fresh(packed)) && Valid() && Contents() == old(Contents())
      ensures changed.None? <==>
                old(kind.Packed? && !packed.Normal() && Contents() != [] && !Packable(Contents()))
      ensures changed.None? ==> unchanged(this)
      ensures changed.Some? ==> (changed.value <==> old(kind.Packed? && !packed.Normal()))
      ensures changed.Some? && kind.Packed? ==> packed.Normal()
      ensures kind == if changed == Some(true) && Contents() == [] then Small else old(kind)
    {
      if !kind.Packed? {
        return Some(false);
      }
      var needs := packed.NeedsNormalize();
      if !needs {
        return Some(false);
      }
      var n := Count();
      if n == 0 {
        ReplaceWithEmpty();
        return Some(true);
      }
      var values := Values(0);
      var ok := ReplaceWithPacked(values);
      changed := if ok then Some(true) else None;
    }
  }

  /** A leaf with one value that is packed because the value is long. */
  method PackOne(first: Value) returns (a: BinaryLeaf)
    requires first.Some? && PACK_FROM < |first.value| <= MAX_VALUE
    ensures fresh(a) && fresh(a.packed) && a.Valid() && a.kind.Packed? && a.packed.Normal() && a.Contents() == [first]
  {
    a := new BinaryLeaf();
    WorthIt(first);
    a.Append([first]);
  }

  /** What a packed leaf in normal form takes after that leaves it in need of normalising. */
  method AddToNormal(a: BinaryLeaf, v: Value)
    requires a.Valid() && a.kind.Packed? && a.packed.Normal() && Storable([v])
    modifies a, a.packed
    ensures a.packed == old(a.packed) && a.Valid() && a.kind.Packed? && !a.packed.Normal()
    ensures a.Contents() == old(a.Contents()) + [v]
  {
    a.Add(v);
  }

  /** A packed leaf that takes one more value, eight bytes larger than can_pack allows, can no longer be normalised. */
  method NormalizeRefused(first: Value, second: Value) returns (a: BinaryLeaf, changed: Option<bool>)
    requires first.Some? && PACK_FROM < |first.value| <= MAX_VALUE && second.Some? && |second.value| == MAX_VALUE + 8
    ensures a.Valid() && a.Contents() == [first, second] && changed.None?
  {
    a := PackOne(first);
    AddToNormal(a, second);
    assert Size(a.Contents()[1]) > MAX_VALUE;
    changed := a.NormalizePacked();
  }

  lemma WorthIt(v: Value)
    requires v.Some? && PACK_FROM < |v.value| <= MAX_VALUE
    ensures WorthPacking([], [v]) && Packable([] + [v]) && [] + [v] == [v]
  {
    assert [v][..0] == [];
    assert TotalSize([v]) == Size(v);
    assert Size([v][0]) > SMALL_MAX;
  }

  // ---- Runs ----

  datatype Op =
    | Append(values: seq<Value>)
    | Insert(i: nat, v: Value)
    | Set(i: nat, v: Value)
    | SetMany(positions: seq<nat>, values: seq<Value>, base: nat)
    | Erase(i: nat)
    | Truncate(i: nat)
    | Clear
    | Normalize

  ghost predicate Legal(s: seq<Value>, op: Op) {
    match op
    case Append(values) => Storable(values)
    case Insert(i, v) => i <= |s| && Storable([v])
    case Set(i, v) => i < |s| && Storable([v])
    case SetMany(positions, values, base) =>
      |positions| == |values| && Storable(values) && Within(positions, base, |s|, |positions|)
    case Erase(i) => i < |s|
    case Truncate(i) => i <= |s|
    case Clear => true
    case Normalize => true
  }

  /** The same operation on a plain list. */
  ghost function Apply(s: seq<Value>, op: Op): seq<Value>
    requires Legal(s, op)
  {
    match op
    case Append(values) => s + values
    case Insert(i, v) => s[..i] + [v] + s[i..]
    case Set(i, v) => s[i := v]
    case SetMany(positions, values, base) => WrittenTo(s, positions, base, values, |values|)
    case Erase(i) => s[..i] + s[i + 1..]
    case Truncate(i) => s[..i]
    case Clear => []
    case Normalize => s
  }

  ghost predicate LegalRun(s: seq<Value>, ops: seq<Op>)
    decreases |ops|
  {
    ops == [] || (Legal(s, ops[0]) && LegalRun(Apply(s, ops[0]), ops[1..]))
  }

  ghost function ApplyAll(s: seq<Value>, ops: seq<Op>): seq<Value>
    requires LegalRun(s, ops)
    decreases |ops|
  {
    if ops == [] then s else ApplyAll(Apply(s, ops[0]), ops[1..])
  }

  method Step(a: BinaryLeaf, op: Op)
    requires a.Valid() && Legal(a.Contents(), op)
    modifies a, a.packed
    ensures (a.packed == old(a.packed) || fresh(a.packed)) && a.Valid() && a.Contents() == Apply(old(a.Contents()), op)
  {
    match op
    case Append(values) => a.Append(values);
    case Insert(i, v) => a.Insert(i, v);
    case Set(i, v) => a.Set(i, v);
    case SetMany(positions, values, base) => a.SetMany(positions, values, base);
    case Erase(i) => a.Erase(i);
    case Truncate(i) => a.Truncate(i);
    case Clear => a.Clear();
    case Normalize =>
      var _ := a.NormalizePacked();
  }

  /** Any run reads back as the same run on a plain list, whatever representations it goes through. */
  method Run(a: BinaryLeaf, ops: seq<Op>)
    requires a.Valid() && LegalRun(a.Contents(), ops)
    modifies a, a.packed
    ensures (a.packed == old(a.packed) || fresh(a.packed)) && a.Valid()
    ensures a.Contents() == ApplyAll(old(a.Contents()), ops)
    decreases |ops|
  {
    if ops != [] {
      Step(a, ops[0]);
      Run(a, ops[1..]);
    }
  }
}
