/** ArrayPackedBlobs: immutable base blocks, delta blocks, an override per slot, and the order of the slots. */
module PackedBlobs {
  import opened Options
  import opened PackedBlocks

  const ROWS: nat := 0x1_0000

  /** All values of a list of blocks. */
  ghost function Flat(chunks: seq<seq<Value>>): seq<Value> {
    if chunks == [] then [] else Flat(chunks[..|chunks| - 1]) + chunks[|chunks| - 1]
  }

  ghost predicate BlocksTo(blocks: seq<seq<Byte>>, chunks: seq<seq<Value>>, n: nat) {
    n == 0 || (
      && n <= |blocks| && n <= |chunks| && BlocksTo(blocks, chunks, n - 1)
      && BlockOk(chunks[n - 1]) && blocks[n - 1] == Encoded(chunks[n - 1]))
  }

  /** The blocks encode these values. */
  ghost predicate BlocksAre(blocks: seq<seq<Byte>>, chunks: seq<seq<Value>>) {
    |blocks| == |chunks| && BlocksTo(blocks, chunks, |chunks|)
  }

  lemma {:induction false} BlockAt(blocks: seq<seq<Byte>>, chunks: seq<seq<Value>>, n: nat, i: nat)
    requires BlocksTo(blocks, chunks, n) && i < n
    ensures i < |blocks| && i < |chunks| && BlockOk(chunks[i]) && blocks[i] == Encoded(chunks[i])
    decreases n
  {
    if i < n - 1 {
      BlockAt(blocks, chunks, n - 1, i);
    }
  }

  lemma {:induction false} BlocksMore(blocks: seq<seq<Byte>>, chunks: seq<seq<Value>>, c: seq<Value>, n: nat)
    requires BlocksTo(blocks, chunks, n) && n <= |blocks| == |chunks| && BlockOk(c)
    ensures BlocksTo(blocks + [Encoded(c)], chunks + [c], n)
    ensures n == |chunks| ==> BlocksAre(blocks + [Encoded(c)], chunks + [c])
  {
    var blocks', chunks' := blocks + [Encoded(c)], chunks + [c];
    if n > 0 {
      BlocksMore(blocks, chunks, c, n - 1);
      assert blocks'[n - 1] == blocks[n - 1] && chunks'[n - 1] == chunks[n - 1];
    }
    if n == |chunks| {
      assert blocks'[n] == Encoded(c) && chunks'[n] == c;
    }
  }

  ghost predicate EndsTo(ends: seq<nat>, chunks: seq<seq<Value>>, n: nat) {
    n == 0 || (n <= |ends| && n <= |chunks| && EndsTo(ends, chunks, n - 1) && ends[n - 1] == |Flat(chunks[..n])|)
  }

  /** The ends are the numbers of values up to and including each block. */
  ghost predicate EndsAre(ends: seq<nat>, chunks: seq<seq<Value>>) {
    |ends| == |chunks| && EndsTo(ends, chunks, |chunks|)
  }

  lemma {:induction false} EndAt(ends: seq<nat>, chunks: seq<seq<Value>>, n: nat, i: nat)
    requires EndsTo(ends, chunks, n) && i < n
    ensures i < |ends| && i < |chunks| && ends[i] == |Flat(chunks[..i + 1])|
    decreases n
  {
    if i < n - 1 {
      EndAt(ends, chunks, n - 1, i);
    }
  }

  lemma {:induction false} LastEnd(ends: seq<nat>, chunks: seq<seq<Value>>)
    requires EndsAre(ends, chunks)
    ensures |Flat(chunks)| == if |ends| > 0 then ends[|ends| - 1] else 0
  {
    if |ends| > 0 {
      EndAt(ends, chunks, |chunks|, |chunks| - 1);
      assert chunks[..|chunks|] == chunks;
    }
  }

  lemma {:induction false} EndsMore(ends: seq<nat>, chunks: seq<seq<Value>>, c: seq<Value>, n: nat)
    requires EndsTo(ends, chunks, n) && n <= |ends| == |chunks|
    ensures EndsTo(ends + [|Flat(chunks)| + |c|], chunks + [c], n)
    ensures n == |chunks| ==> EndsAre(ends + [|Flat(chunks)| + |c|], chunks + [c])
  {
    if n > 0 {
      EndsMore(ends, chunks, c, n - 1);
      assert (chunks + [c])[..n] == chunks[..n];
    }
    if n == |chunks| {
      FlatSnoc(chunks, c);
      assert (chunks + [c])[..n + 1] == chunks + [c];
    }
  }

  /** What an entry of the override table says: a row of a delta block, or the base blocks. */
  ghost predicate SlotOk(o: nat, s: nat, base: seq<Value>, deltas: seq<seq<Value>>, v: Value) {
    if o == 0 then s < |base| && base[s] == v
    else
      && (o - 1) / ROWS < |deltas| && (o - 1) % ROWS < |deltas[(o - 1) / ROWS]|
      && deltas[(o - 1) / ROWS][(o - 1) % ROWS] == v
  }

  ghost predicate SlotsTo(overrides: seq<nat>, base: seq<Value>, deltas: seq<seq<Value>>, slots: seq<Value>, n: nat) {
    n == 0 || (
      && n <= |overrides| && n <= |slots| && SlotsTo(overrides, base, deltas, slots, n - 1)
      && SlotOk(overrides[n - 1], n - 1, base, deltas, slots[n - 1]))
  }

  ghost predicate SlotsOk(overrides: seq<nat>, base: seq<Value>, deltas: seq<seq<Value>>, slots: seq<Value>) {
    |overrides| == |slots| && SlotsTo(overrides, base, deltas, slots, |slots|)
  }

  lemma {:induction false} SlotAt(overrides: seq<nat>, base: seq<Value>, deltas: seq<seq<Value>>, slots: seq<Value>,
                                  n: nat, s: nat)
    requires SlotsTo(overrides, base, deltas, slots, n) && s < n
    ensures s < |overrides| && s < |slots| && SlotOk(overrides[s], s, base, deltas, slots[s])
    decreases n
  {
    if s < n - 1 {
      SlotAt(overrides, base, deltas, slots, n - 1, s);
    }
  }

  /** The order table names slots that exist, each at most once. */
  ghost predicate OrderOk(order: seq<nat>, slots: nat) {
    && (forall i :: 0 <= i < |order| ==> order[i] < slots)
    && (forall i, j :: 0 <= i < j < |order| ==> order[i] != order[j])
  }

  /** The values in the order of the table. */
  ghost function Pick(slots: seq<Value>, order: seq<nat>): (r: seq<Value>)
    requires forall i :: 0 <= i < |order| ==> order[i] < |slots|
    ensures |r| == |order|
  {
    seq(|order|, i requires 0 <= i < |order| => slots[order[i]])
  }

  lemma {:induction false} FlatMono(chunks: seq<seq<Value>>, i: nat)
    requires i <= |chunks|
    ensures |Flat(chunks[..i])| <= |Flat(chunks)| && Flat(chunks)[..|Flat(chunks[..i])|] == Flat(chunks[..i])
    decreases |chunks|
  {
    if i < |chunks| {
      var n: nat := |chunks| - 1;
      assert chunks[..n][..i] == chunks[..i];
      FlatMono(chunks[..n], i);
    } else {
      assert chunks[..i] == chunks;
    }
  }

  /** Where block i is in the flat list. */
  lemma {:induction false} FlatAt(chunks: seq<seq<Value>>, i: nat, k: nat)
    requires i < |chunks| && k < |chunks[i]|
    ensures |Flat(chunks[..i + 1])| == |Flat(chunks[..i])| + |chunks[i]| <= |Flat(chunks)|
    ensures Flat(chunks)[|Flat(chunks[..i])| + k] == chunks[i][k]
  {
    FlatMono(chunks, i + 1);
    assert chunks[..i + 1][..i] == chunks[..i];
    assert Flat(chunks)[..|Flat(chunks[..i + 1])|][|Flat(chunks[..i])| + k]
        == Flat(chunks[..i + 1])[|Flat(chunks[..i])| + k];
  }

  lemma {:induction false} FlatNext(chunks: seq<seq<Value>>, i: nat)
    requires i < |chunks|
    ensures |Flat(chunks[..i + 1])| == |Flat(chunks[..i])| + |chunks[i]|
  {
    assert chunks[..i + 1][..i] == chunks[..i];
  }

  lemma {:induction false} FlatSnoc(chunks: seq<seq<Value>>, c: seq<Value>)
    ensures Flat(chunks + [c]) == Flat(chunks) + c
  {
    assert (chunks + [c])[..|chunks|] == chunks;
  }

  lemma {:induction false} MoreBase(blocks: seq<seq<Byte>>, ends: seq<nat>, chunks: seq<seq<Value>>, c: seq<Value>)
    requires BlocksAre(blocks, chunks) && EndsAre(ends, chunks) && BlockOk(c)
    ensures BlocksAre(blocks + [Encoded(c)], chunks + [c]) && EndsAre(ends + [|Flat(chunks)| + |c|], chunks + [c])
    ensures Flat(chunks + [c]) == Flat(chunks) + c
  {
    FlatSnoc(chunks, c);
    EndsMore(ends, chunks, c, |chunks|);
    BlocksMore(blocks, chunks, c, |chunks|);
  }

  // ---- Steps ----

  function Location(block: nat, row: nat): nat {
    block * ROWS + row + 1
  }

  lemma LocationOk(block: nat, row: nat)
    requires row < ROWS
    ensures (Location(block, row) - 1) / ROWS == block && (Location(block, row) - 1) % ROWS == row
  {
  }

  /** A new delta block changes no slot. */
  lemma {:induction false} MoreDeltas(overrides: seq<nat>, base: seq<Value>, deltas: seq<seq<Value>>, slots: seq<Value>,
                                      c: seq<Value>, n: nat)
    requires SlotsTo(overrides, base, deltas, slots, n)
    ensures SlotsTo(overrides, base, deltas + [c], slots, n)
  {
    if n > 0 {
      MoreDeltas(overrides, base, deltas, slots, c, n - 1);
    }
  }

  lemma {:induction false} MoreSlots(overrides: seq<nat>, base: seq<Value>, deltas: seq<seq<Value>>, slots: seq<Value>,
                                     o: nat, v: Value, n: nat)
    requires SlotsTo(overrides, base, deltas, slots, n) && n <= |overrides| == |slots|
    requires SlotOk(o, |slots|, base, deltas, v)
    ensures SlotsTo(overrides + [o], base, deltas, slots + [v], n)
    ensures n == |slots| ==> SlotsOk(overrides + [o], base, deltas, slots + [v])
  {
    if n > 0 {
      MoreSlots(overrides, base, deltas, slots, o, v, n - 1);
    }
  }

  lemma {:induction false} ChangedSlot(overrides: seq<nat>, base: seq<Value>, deltas: seq<seq<Value>>,
                                       slots: seq<Value>, o: nat, v: Value, slot: nat, n: nat)
    requires SlotsTo(overrides, base, deltas, slots, n) && slot < |slots| == |overrides|
    requires SlotOk(o, slot, base, deltas, v)
    ensures SlotsTo(overrides[slot := o], base, deltas, slots[slot := v], n)
  {
    if n > 0 {
      ChangedSlot(overrides, base, deltas, slots, o, v, slot, n - 1);
    }
  }

  /** A row of a delta block, as an override. */
  lemma RowOk(base: seq<Value>, deltas: seq<seq<Value>>, b: nat, r: nat, s: nat)
    requires b < |deltas| && r < |deltas[b]| <= MAX_RECORDS
    ensures SlotOk(Location(b, r), s, base, deltas, deltas[b][r])
  {
    LocationOk(b, r);
  }

  lemma PickMore(slots: seq<Value>, order: seq<nat>, v: Value)
    requires OrderOk(order, |slots|)
    ensures OrderOk(order + [|slots|], |slots| + 1) && Pick(slots + [v], order + [|slots|]) == Pick(slots, order) + [v]
  {
  }

  lemma PickInsert(slots: seq<Value>, order: seq<nat>, v: Value, i: nat)
    requires OrderOk(order, |slots|) && i <= |order|
    ensures var order' := order[..i] + [|slots|] + order[i..];
            OrderOk(order', |slots| + 1) && Pick(slots + [v],
                                                 order') == Pick(slots, order)[..i] + [v] + Pick(slots, order)[i..]
  {
  }

  /** Since the order table is injective, a slot shows at one position only. */
  lemma PickSet(slots: seq<Value>, order: seq<nat>, v: Value, i: nat)
    requires OrderOk(order, |slots|) && i < |order|
    ensures Pick(slots[order[i] := v], order) == Pick(slots, order)[i := v]
  {
  }

  lemma PickErase(slots: seq<Value>, order: seq<nat>, i: nat)
    requires OrderOk(order, |slots|) && i < |order|
    ensures var order' := order[..i] + order[i + 1..];
            OrderOk(order', |slots|) && Pick(slots, order') == Pick(slots, order)[..i] + Pick(slots, order)[i + 1..]
  {
  }

  lemma PickPrefix(slots: seq<Value>, order: seq<nat>, n: nat)
    requires OrderOk(order, |slots|) && n <= |order|
    ensures OrderOk(order[..n], |slots|) && Pick(slots, order[..n]) == Pick(slots, order)[..n]
  {
  }

  lemma RowsOf(values: seq<Value>, i: nat, j: nat, k: nat)
    requires i <= k < j <= |values|
    ensures |values[i..j]| == j - i && values[i..j][k - i] == values[k]
  {
  }

  lemma Grown(was: seq<Value>, values: seq<Value>, i: nat, j: nat)
    requires i <= j <= |values|
    ensures was + values[..i] + values[i..j] == was + values[..j] && (j == i + 1 ==> values[i..j] == [values[i]])
  {
  }

  lemma GrownByOne(was: seq<Value>, values: seq<Value>, i: nat)
    requires i < |values|
    ensures was + values[..i] + [values[i]] == was + values[..i + 1]
  {
  }

  /** The order table of a new leaf. */
  method InOrder(n: nat) returns (order: seq<nat>)
    ensures |order| == n && forall k :: 0 <= k < n ==> order[k] == k
  {
    order := seq(n, _ => 0);
    for i := 0 to n
      invariant |order| == n && forall k :: 0 <= k < i ==> order[k] == k
    {
      order := order[i := i];
    }
  }

  /** The first n positions, less `base`, are positions of a list of the given size. */
  predicate Within(positions: seq<nat>, base: nat, size: nat, n: nat) {
    n == 0 || (
      && n <= |positions| && Within(positions, base, size, n - 1)
      && base <= positions[n - 1] < base + size)
  }

  lemma {:induction false} WithinLess(positions: seq<nat>, base: nat, size: nat, m: nat, n: nat)
    requires Within(positions, base, size, n) && m <= n
    ensures Within(positions, base, size, m)
    decreases n
  {
    if m < n {
      WithinLess(positions, base, size, m, n - 1);
    }
  }

  /** Values written one after the other at positions less `base`. */
  ghost function WrittenTo(s: seq<Value>, positions: seq<nat>, base: nat, values: seq<Value>, n: nat): (r: seq<Value>)
    requires n <= |positions| == |values| && Within(positions, base, |s|, n)
    ensures |r| == |s|
  {
    if n == 0 then s else WrittenTo(s, positions, base, values, n - 1)[positions[n - 1] - base := values[n - 1]]
  }

  class PackedLeaf {
    var baseBlocks: seq<seq<Byte>>
    var baseEnds: seq<nat>
    var deltaBlocks: seq<seq<Byte>>
    var overrides: seq<nat>
    var order: seq<nat>
    ghost var chunks: seq<seq<Value>>
    ghost var deltas: seq<seq<Value>>
    ghost var slots: seq<Value>

    ghost predicate Valid()
      reads this
    {
      && BlocksAre(baseBlocks, chunks) && EndsAre(baseEnds, chunks) && BlocksAre(deltaBlocks, deltas)
      && SlotsOk(overrides, Flat(chunks), deltas, slots) && OrderOk(order, |slots|)
    }

    ghost function Contents(): seq<Value>
      requires Valid()
      reads this
    {
      Pick(slots, order)
    }

    /** An empty shell; Create fills it. */
    constructor ()
      ensures Valid() && Contents() == []
    {
      baseBlocks, baseEnds, deltaBlocks, overrides, order := [], [], [], [], [];
      chunks, deltas, slots := [], [], [];
    }

    /** The base block a slot is in. */
    method FindBlock(slot: nat) returns (b: nat, previous: nat)
      requires Valid() && slot < |Flat(chunks)|
      ensures b < |chunks| && previous == |Flat(chunks[..b])| <= slot < previous + |chunks[b]|
    {
      b, previous := 0, 0;
      assert chunks[..0] == [];
      LastEnd(baseEnds, chunks);
      EndAt(baseEnds, chunks, |chunks|, 0);
      while b < |baseEnds| && slot >= baseEnds[b]
        invariant b < |chunks| && previous == |Flat(chunks[..b])| <= slot && baseEnds[b] == |Flat(chunks[..b + 1])|
      {
        previous := baseEnds[b];
        b := b + 1;
        EndAt(baseEnds, chunks, |chunks|, b);
      }
      FlatNext(chunks, b);
    }

    method GetDelta(b: nat, row: nat) returns (v: Value)
      requires Valid() && b < |deltas| && row < |deltas[b]|
      ensures v == deltas[b][row]
    {
      BlockAt(deltaBlocks, deltas, |deltas|, b);
      BlockRoundTrip(deltas[b], row);
      v := GetFromBlock(deltaBlocks[b], row);
    }

    method GetBase(slot: nat) returns (v: Value)
      requires Valid() && slot < |Flat(chunks)|
      ensures v == Flat(chunks)[slot]
    {
      var b, previous := FindBlock(slot);
      FlatAt(chunks, b, slot - previous);
      BlockAt(baseBlocks, chunks, |chunks|, b);
      BlockRoundTrip(chunks[b], slot - previous);
      v := GetFromBlock(baseBlocks[b], slot - previous);
    }

    method GetSlot(slot: nat) returns (v: Value)
      requires Valid() && slot < |slots|
      ensures v == slots[slot]
    {
      SlotAt(overrides, Flat(chunks), deltas, slots, |slots|, slot);
      var encoded := overrides[slot];
      if encoded != 0 {
        v := GetDelta((encoded - 1) / ROWS, (encoded - 1) % ROWS);
      } else {
        v := GetBase(slot);
      }
    }

    method Get(i: nat) returns (v: Value)
      requires Valid() && i < |order|
      ensures v == Contents()[i]
    {
      v := GetSlot(order[i]);
    }

    method AppendDeltaBlock(values: seq<Value>) returns (b: nat)
      requires Valid() && BlockOk(values)
      modifies this`deltaBlocks, this`deltas
      ensures Valid() && b == |old(deltas)| && deltas == old(deltas) + [values]
    {
      var block := CreateBlock(values);
      MoreDeltas(overrides, Flat(chunks), deltas, slots, values, |slots|);
      BlocksMore(deltaBlocks, deltas, values, |deltas|);
      b := |deltaBlocks|;
      deltaBlocks := deltaBlocks + [block.value];
      deltas := deltas + [values];
    }

    /** A new slot for row r of delta block b, at the end of the order. */
    method AddRow(b: nat, r: nat)
      requires Valid() && b < |deltas| && r < |deltas[b]|
      modifies this`overrides, this`order, this`slots
      ensures Valid() && Contents() == old(Contents()) + [deltas[b][r]]
    {
      BlockAt(deltaBlocks, deltas, |deltas|, b);
      RowOk(Flat(chunks), deltas, b, r, |slots|);
      MoreSlots(overrides, Flat(chunks), deltas, slots, Location(b, r), deltas[b][r], |slots|);
      PickMore(slots, order, deltas[b][r]);
      var slot := |overrides|;
      overrides := overrides + [Location(b, r)];
      order := order + [slot];
      slots := slots + [deltas[b][r]];
    }

    /** Append one block of values. */
    method AppendBlock(values: seq<Value>)
      requires Valid() && BlockOk(values)
      modifies this`deltaBlocks, this`deltas, this`overrides, this`order, this`slots
      ensures Valid() && Contents() == old(Contents()) + values && deltas == old(deltas) + [values]
    {
      var b := AppendDeltaBlock(values);
      AddRows(b, values);
    }

    /** A new slot for every row of delta block b. */
    method AddRows(b: nat, values: seq<Value>)
      requires Valid() && b < |deltas| && deltas[b] == values
      modifies this`overrides, this`order, this`slots
      ensures Valid() && Contents() == old(Contents()) + values
    {
      ghost var was := Contents();
      for row := 0 to |values|
        invariant Valid() && Contents() == was + values[..row]
      {
        AddRow(b, row);
        GrownByOne(was, values, row);
      }
      assert values[..|values|] == values;
    }

    method Append(values: seq<Value>)
      requires Valid() && Storable(values)
      modifies this`deltaBlocks, this`deltas, this`overrides, this`order, this`slots
      ensures Valid() && Contents() == old(Contents()) + values && deltas == old(deltas) + Parts(values, 0)
    {
      ghost var was, blocks := Contents(), deltas;
      var begin: nat := 0;
      while begin < |values|
        invariant begin <= |values| && Valid() && Contents() == was + values[..begin]
        invariant CutTo(blocks, deltas, values, begin)
      {
        var end := BlockEnd(values, begin);
        CutStep(blocks, deltas, values, begin, end);
        AppendBlock(values[begin..end]);
        Grown(was, values, begin, end);
        begin := end;
      }
      assert values[..|values|] == values;
    }

    method Insert(i: nat, v: Value)
      requires Valid() && i <= |order| && Storable([v])
      modifies this`deltaBlocks, this`deltas, this`overrides, this`order, this`slots
      ensures Valid() && |old(Contents())| == |old(order)|
      ensures Contents() == old(Contents())[..i] + [v] + old(Contents())[i..] && deltas == old(deltas) + [[v]]
    {
      OneFits(v);
      var b := AppendDeltaBlock([v]);
      RowOk(Flat(chunks), deltas, b, 0, |slots|);
      MoreSlots(overrides, Flat(chunks), deltas, slots, Location(b, 0), v, |slots|);
      PickInsert(slots, order, v, i);
      var slot := |overrides|;
      overrides := overrides + [Location(b, 0)];
      order := order[..i] + [slot] + order[i..];
      slots := slots + [v];
    }

    /** Let the slot at position i show row r of delta block b. */
    method Override(i: nat, b: nat, r: nat)
      requires Valid() && i < |order| && b < |deltas| && r < |deltas[b]|
      modifies this`overrides, this`slots
      ensures Valid() && |old(Contents())| == |order| && Contents() == old(Contents())[i := deltas[b][r]]
    {
      BlockAt(deltaBlocks, deltas, |deltas|, b);
      RowOk(Flat(chunks), deltas, b, r, order[i]);
      ChangedSlot(overrides, Flat(chunks), deltas, slots, Location(b, r), deltas[b][r], order[i], |slots|);
      PickSet(slots, order, deltas[b][r], i);
      var slot := order[i];
      overrides := overrides[slot := Location(b, r)];
      slots := slots[slot := deltas[b][r]];
    }

    /** Overwrite the positions begin..end with the rows of delta block b. */
    method SetRows(positions: seq<nat>, values: seq<Value>, base: nat, begin: nat, end: nat, b: nat,
                   ghost was: seq<Value>)
      requires Valid() && |positions| == |values| && begin <= end <= |values| && b < |deltas| && |was| == |order|
      requires deltas[b] == values[begin..end] && Within(positions, base, |order|, begin)
      requires Within(positions, base, |order|, end)
      requires Contents() == WrittenTo(was, positions, base, values, begin)
      modifies this`overrides, this`slots
      ensures Valid() && Contents() == WrittenTo(was, positions, base, values, end)
    {
      for k := begin to end
        invariant Within(positions, base, |order|, k) && Valid()
        invariant Contents() == WrittenTo(was, positions, base, values, k)
      {
        RowsOf(values, begin, end, k);
        WithinLess(positions, base, |order|, k + 1, end);
        Override(positions[k] - base, b, k - begin);
      }
    }

    /** Overwrite the positions begin..end with a delta block of their own. */
    method SetBlock(positions: seq<nat>, values: seq<Value>, base: nat, begin: nat, end: nat, ghost was: seq<Value>)
      requires Valid() && |positions| == |values| && begin <= end <= |values| && |was| == |order|
      requires Within(positions, base, |order|, begin) && Within(positions, base, |order|, end)
      requires Contents() == WrittenTo(was, positions, base, values, begin) && BlockOk(values[begin..end])
      modifies this`deltaBlocks, this`deltas, this`overrides, this`slots
      ensures Valid() && Contents() == WrittenTo(was, positions, base, values, end)
      ensures deltas == old(deltas) + [values[begin..end]]
    {
      var b := AppendDeltaBlock(values[begin..end]);
      SetRows(positions, values, base, begin, end, b, was);
    }

    /** Overwrite positions, given with an offset; later entries win. */
    method SetMany(positions: seq<nat>, values: seq<Value>, base: nat)
      requires Valid() && |positions| == |values| && Storable(values)
      requires Within(positions, base, |order|, |positions|)
      modifies this`deltaBlocks, this`deltas, this`overrides, this`slots
      ensures Valid() && |old(Contents())| == |order|
      ensures Contents() == WrittenTo(old(Contents()), positions, base, values, |values|)
      ensures deltas == old(deltas) + Parts(values, 0)
    {
      ghost var was, blocks := Contents(), deltas;
      var begin: nat := 0;
      while begin < |values|
        invariant begin <= |values| && Within(positions, base, |order|, begin) && Valid()
        invariant Contents() == WrittenTo(was, positions, base, values, begin)
        invariant CutTo(blocks, deltas, values, begin)
      {
        var end := BlockEnd(values, begin);
        CutStep(blocks, deltas, values, begin, end);
        WithinLess(positions, base, |order|, end, |positions|);
        SetBlock(positions, values, base, begin, end, was);
        begin := end;
      }
    }

    method Erase(i: nat)
      requires Valid() && i < |order|
      modifies this`order
      ensures Valid() && |old(Contents())| == |old(order)|
      ensures Contents() == old(Contents())[..i] + old(Contents())[i + 1..]
    {
      PickErase(slots, order, i);
      order := order[..i] + order[i + 1..];
    }

    method Truncate(n: nat)
      requires Valid()
      modifies this`order
      ensures Valid() && |old(Contents())| == |old(order)|
      ensures Contents() == if n < |old(order)| then old(Contents())[..n] else old(Contents())
    {
      if n < |order| {
        PickPrefix(slots, order, n);
        order := order[..n];
      }
    }

    method Clear()
      requires Valid()
      modifies this`order
      ensures Valid() && Contents() == []
    {
      order := [];
    }

    /** The form in which Create leaves a leaf: no deltas, no overrides, slots in order. */
    ghost predicate Normal()
      reads this
    {
      && deltaBlocks == [] && |order| == |overrides| == |Flat(chunks)|
      && (forall i :: 0 <= i < |order| ==> order[i] == i && overrides[i] == 0)
    }

    /** Cut values into base blocks. */
    method AppendBaseBlocks(values: seq<Value>)
      requires BlocksAre(baseBlocks, chunks) && EndsAre(baseEnds, chunks) && Storable(values)
      modifies this`baseBlocks, this`baseEnds, this`chunks
      ensures BlocksAre(baseBlocks, chunks) && EndsAre(baseEnds, chunks) && Flat(chunks) == old(Flat(chunks)) + values
      ensures chunks == old(chunks) + Parts(values, 0)
    {
      ghost var was, blocks := Flat(chunks), chunks;
      LastEnd(baseEnds, chunks);
      var total := if |baseEnds| > 0 then baseEnds[|baseEnds| - 1] else 0;
      var begin: nat := 0;
      while begin < |values|
        invariant begin <= |values| && BlocksAre(baseBlocks, chunks) && EndsAre(baseEnds, chunks)
        invariant Flat(chunks) == was + values[..begin] && total == |Flat(chunks)|
        invariant CutTo(blocks, chunks, values, begin)
      {
        var end := BlockEnd(values, begin);
        CutStep(blocks, chunks, values, begin, end);
        total := AddBaseBlock(values[begin..end], total);
        Grown(was, values, begin, end);
        begin := end;
      }
      assert values[..|values|] == values;
    }

    method AddBaseBlock(values: seq<Value>, total: nat) returns (total': nat)
      requires BlocksAre(baseBlocks, chunks) && EndsAre(baseEnds, chunks) && BlockOk(values) && total == |Flat(chunks)|
      modifies this`baseBlocks, this`baseEnds, this`chunks
      ensures BlocksAre(baseBlocks, chunks) && EndsAre(baseEnds, chunks)
      ensures Flat(chunks) == old(Flat(chunks)) + values && total' == |Flat(chunks)|
      ensures chunks == old(chunks) + [values]
    {
      var block := CreateBlock(values);
      MoreBase(baseBlocks, baseEnds, chunks, values);
      total' := total + |values|;
      baseBlocks, baseEnds, chunks := baseBlocks + [block.value], baseEnds + [total'], chunks + [values];
    }

    /** Make a leaf of values; refused if there are none or one is too large. */
    method Create(values: seq<Value>) returns (ok: bool)
      modifies this
      ensures ok <==> values != [] && Packable(values)
      ensures ok ==> Valid() && Contents() == values && Normal() && chunks == Parts(values, 0)
      ensures !ok ==> unchanged(this)
    {
      ok := CanPack(values);
      if !ok {
        return;
      }
      baseBlocks, baseEnds, chunks := [], [], [];
      AppendBaseBlocks(values);
      SetTables(values);
    }

    /** The tables of a leaf whose base blocks hold the values. */
    method SetTables(values: seq<Value>)
      requires BlocksAre(baseBlocks, chunks) && EndsAre(baseEnds, chunks) && Flat(chunks) == values
      modifies this`deltaBlocks, this`overrides, this`order, this`deltas, this`slots
      ensures Valid() && Contents() == values && Normal()
    {
      var zeros: seq<nat> := seq(|values|, _ => 0);
      var inOrder := InOrder(|values|);
      PlainTables(zeros, inOrder, values);
      deltaBlocks, overrides, order := [], zeros, inOrder;
      deltas, slots := [], values;
    }

    method NeedsNormalize() returns (r: bool)
      requires Valid()
      ensures r <==> !Normal()
    {
      if |deltaBlocks| != 0 {
        return true;
      }
      LastEnd(baseEnds, chunks);
      var baseSize := if |baseEnds| > 0 then baseEnds[|baseEnds| - 1] else 0;
      if |order| != baseSize || |overrides| != baseSize {
        return true;
      }
      for i := 0 to |order|
        invariant forall k :: 0 <= k < i ==> order[k] == k && overrides[k] == 0
      {
        if order[i] != i || overrides[i] != 0 {
          return true;
        }
      }
      r := false;
    }
  }

  /** The blocks `now` are `was` and the values up to `begin`, cut as block_end cuts them. */
  ghost predicate CutTo(was: seq<seq<Value>>, now: seq<seq<Value>>, values: seq<Value>, begin: nat)
    requires begin <= |values|
  {
    now + Parts(values, begin) == was + Parts(values, 0)
  }

  lemma {:induction false} CutStep(was: seq<seq<Value>>, now: seq<seq<Value>>, values: seq<Value>, begin: nat, end: nat)
    requires begin < end <= |values| && CutTo(was, now, values, begin) && end == EndOf(values, begin, begin + 1)
    ensures CutTo(was, now + [values[begin..end]], values, end)
  {
    assert now + [values[begin..end]] + Parts(values, end) == now + Parts(values, begin);
  }

  /** Without overrides, every slot is in the base blocks. */
  lemma {:induction false} PlainSlots(overrides: seq<nat>, base: seq<Value>, n: nat)
    requires n <= |overrides| == |base| && forall i :: 0 <= i < |overrides| ==> overrides[i] == 0
    ensures SlotsTo(overrides, base, [], base, n)
  {
    if n > 0 {
      PlainSlots(overrides, base, n - 1);
    }
  }

  lemma {:induction false} PlainTables(overrides: seq<nat>, order: seq<nat>, values: seq<Value>)
    requires |overrides| == |order| == |values|
    requires (forall i :: 0 <= i < |overrides| ==> overrides[i] == 0) && forall i :: 0 <= i < |order| ==> order[i] == i
    ensures SlotsOk(overrides, values, [], values) && OrderOk(order, |values|) && Pick(values, order) == values
  {
    PlainSlots(overrides, values, |values|);
  }

  lemma OneFits(v: Value)
    requires Storable([v])
    ensures BlockOk([v])
  {
    UsedIs([v], 0, 1);
    assert [v][0..1] == [v];
    assert Size([v][0]) <= MAX_STORED;
  }
}
