/** SlabAlloc: boundary-tag allocation in slabs that extend the ref space behind the mapped file. */
module Slabs {
  import opened Options
  import opened Tiles
  import opened FreeLists
  import opened SlabSets
  import opened SlabSteps
  import opened SlabChoice

  /** What a slab is at least, and what is kept between transactions. */
  const MINIMAL: nat := 0x2_0000

  datatype Tracking = Clean | Dirty | Invalid

  /** A mapped section of the file: where it is in memory and how much of it is mapped. */
  datatype Mapping = Mapping(addr: nat, len: nat)

  /** A block as the caller sees it. */
  datatype MemRef = MemRef(ref: nat, block: Block)

  function BlockOf(r: Option<MemRef>): Option<Block> {
    if r.Some? then Some(r.value.block) else None
  }

  function AlignUp(pos: nat): nat {
    if pos % SECTION == 0 then pos else (pos / SECTION + 1) * SECTION
  }

  /** A request, rounded as do_alloc and do_free round it. */
  function Rounded(size: nat): nat {
    var s := if size < HEAD then HEAD else size;
    if s % 8 != 0 then s + 8 - s % 8 else s
  }

  /** A slab of one section has room for the request between its two end tags. */
  predicate Fits(size: nat) {
    size + 2 * TAG <= SECTION
  }

  /** What the size of a block says about the request it answers. */
  ghost predicate Answers(size: int, request: nat) {
    && (size >= Rounded(request) <==> Fits(request))
    && size <= Rounded(request) + HEAD + TAG
  }

  ghost predicate AskedOk(tiles: seq<seq<Tile>>, asked: map<(Block, int), nat>) {
    && asked.Keys == All(tiles, false)
    && (forall x :: x in asked ==> 0 < asked[x] < SECTION && asked[x] % 8 == 0 && Answers(x.1, asked[x]))
  }

  // ---- The ref space ----

  ghost predicate MappedOk(baseline: nat, mappings: seq<Mapping>) {
    && |mappings| * SECTION == AlignUp(baseline)
    && (forall k :: 0 <= k < |mappings| ==> mappings[k].len == SectionSize(k, baseline))
  }

  /** How much of section k a file of the given size fills. */
  function SectionSize(k: nat, fileSize: nat): int {
    if (k + 1) * SECTION <= fileSize then SECTION else fileSize - k * SECTION
  }

  /** Slab k fills the section that is k sections behind the mapped ones, from its start. */
  ghost predicate PlacedOk(sections: nat, slabs: seq<Slab>) {
    forall k :: 0 <= k < |slabs| ==>
      && slabs[k].refEnd == (sections + k) * SECTION + slabs[k].size
      && MINIMAL <= slabs[k].size <= SECTION && slabs[k].size % 8 == 0
  }

  ghost predicate TableOk(mappings: seq<Mapping>, slabs: seq<Slab>, table: seq<nat>) {
    && |table| == |mappings| + |slabs|
    && (forall k :: 0 <= k < |mappings| ==> table[k] == mappings[k].addr)
    && (forall k :: 0 <= k < |slabs| ==> table[|mappings| + k] == slabs[k].addr)
  }

  /** No two sections of the ref space are at the same address. */
  ghost predicate AddressesOk(table: seq<nat>, next: nat) {
    && (forall k :: 0 <= k < |table| ==> table[k] < next)
    && (forall i, j :: 0 <= i < j < |table| ==> table[i] != table[j])
  }

  /** What is left of the slabs after a reset: at most one, of the minimal size. */
  ghost predicate Small(slabs: seq<Slab>) {
    |slabs| == 0 || (|slabs| == 1 && slabs[0].size == MINIMAL)
  }

  /** What a reset keeps: the first slab if it is a minimal one. */
  function KeptSlabs(slabs: seq<Slab>): seq<Slab> {
    if |slabs| > 0 && slabs[0].size <= MINIMAL then slabs[..1] else []
  }

  function Total(slabs: seq<Slab>): nat {
    if slabs == [] then 0 else Total(slabs[..|slabs| - 1]) + slabs[|slabs| - 1].size
  }

  /** As many minimal slabs as the request needs with its end tags, or as much as there is; at most a section. */
  function SlabSize(slabs: seq<Slab>, size: nat): nat {
    var needed := (size + 2 * TAG + MINIMAL - 1) / MINIMAL * MINIMAL;
    var wanted := if needed < Total(slabs) then Total(slabs) else needed;
    if wanted > SECTION then SECTION else wanted
  }

  lemma LeastMultiple(needed: nat, n: nat)
    requires needed <= n * MINIMAL < needed + MINIMAL
    ensures (needed + MINIMAL - 1) / MINIMAL * MINIMAL == n * MINIMAL && n * MINIMAL % 8 == 0
  {
  }

  lemma {:induction false} TotalAligned(slabs: seq<Slab>)
    requires forall k :: 0 <= k < |slabs| ==> slabs[k].size % 8 == 0
    ensures Total(slabs) % 8 == 0
  {
    if slabs != [] {
      TotalAligned(slabs[..|slabs| - 1]);
    }
  }

  lemma AlignUpOk(pos: nat)
    ensures AlignUp(pos) % SECTION == 0 && pos <= AlignUp(pos) < pos + SECTION
  {
  }

  lemma AlignUpIs(pos: nat, k: nat)
    requires (k * SECTION) < pos <= (k + 1) * SECTION
    ensures AlignUp(pos) == (k + 1) * SECTION
  {
  }

  /** The section and the place in the section of a ref in slab b.slab. */
  lemma RefSection(sections: nat, b: Block)
    requires b.off < SECTION
    ensures RefAt(sections, b) / SECTION == sections + b.slab && RefAt(sections, b) % SECTION == b.off
  {
  }

  class SlabAlloc {
    var baseline: nat
    var mappings: seq<Mapping>
    var slabs: seq<Slab>
    var table: seq<nat>
    var tags: seq<map<nat, Tag>>
    var refs: map<Block, nat>
    const lists: FreeLists
    var state: Tracking
    var nextAddr: nat
    /**
     * The row of blocks in each slab, the free blocks an operation is working on, and the request behind each live
     * block.
     */
    ghost var tiles: seq<seq<Tile>>
    ghost var hand: set<(Block, int)>
    ghost var asked: map<(Block, int), nat>

    ghost predicate Space()
      reads this
    {
      && MappedOk(baseline, mappings) && PlacedOk(|mappings|, slabs) && TableOk(mappings, slabs, table)
      && AddressesOk(table, nextAddr)
    }

    ghost predicate Core()
      reads this, lists
    {
      CoreOk(slabs, tags, tiles, lists.lists, hand, refs, |mappings|)
    }

    /** What every operation keeps; in the middle of one, blocks may be in hand. */
    ghost predicate Sound()
      reads this, lists
    {
      Space() && lists.Valid() && Core() && hand == {} && Quiet(tiles)
    }

    ghost predicate Valid()
      reads this, lists
    {
      && Sound()
      && AskedOk(tiles, asked)
      && (state.Clean? ==> asked == map[] && Small(slabs))
    }

    /** The blocks in use, with their sizes. */
    ghost function Live(): set<(Block, int)>
      reads this
    {
      All(tiles, false)
    }

    /** Where a ref is in memory: an address handed out by the system, and the distance from it. */
    function Translate(ref: nat): (nat, nat)
      requires ref / SECTION < |table|
      reads this
    {
      (table[ref / SECTION], ref % SECTION)
    }

    /** An allocator without a file: no sections mapped, no slabs. */
    constructor ()
      ensures Valid() && fresh(lists) && asked == map[] && baseline == 0 && slabs == [] && state.Clean?
    {
      baseline, mappings, slabs, table, tags, refs := 0, [], [], [], [], map[];
      lists := new FreeLists();
      state, nextAddr := Clean, 0;
      tiles, hand, asked := [], {}, map[];
    }

    // ---- Boundary tags ----

    method SetMarks(b: Block, ghost t: Tile)
      requires Tagged(tags, b, t)
      modifies this`tags
      ensures tags == Flipped(old(tags), b, t)
    {
      var m := tags[b.slab];
      var size := m[b.off - TAG].after;
      var end := b.off + if size > 0 then size else -size;
      m := SetAfter(m, b.off - TAG, -size);
      m := SetBefore(m, end, -m[end].before);
      tags := tags[b.slab := m];
    }

    method MarkAllocated(b: Block, ghost i: nat)
      requires Core() && Stands(tiles, b, i) && tiles[b.slab][i].free && (b, tiles[b.slab][i].size as int) in hand
      modifies this`tags, this`tiles, this`hand
      ensures Core()
      ensures tiles == FlippedTiles(old(tiles), b.slab, i)
      ensures var x := Only(b, old(tiles)[b.slab][i].size);
              hand == old(hand) - x && Live() == old(Live()) + x
    {
      AllocateStep(slabs, tags, tiles, lists.lists, hand, refs, |mappings|, b, i);
      SetMarks(b, tiles[b.slab][i]);
      hand := hand - Only(b, tiles[b.slab][i].size);
      tiles := FlippedTiles(tiles, b.slab, i);
    }

    /** The assertions of the original about the two tags hold on entry. */
    method MarkFreed(b: Block, ref: nat, size: nat, ghost i: nat)
      requires Core() && Stands(tiles, b, i) && !tiles[b.slab][i].free && ref == RefAt(|mappings|, b)
      requires Rounded(size) <= tiles[b.slab][i].size <= Rounded(size) + HEAD + TAG
      modifies this`tags, this`tiles, this`hand, this`refs
      ensures Core()
      ensures tiles == FlippedTiles(old(tiles), b.slab, i)
      ensures var x := Only(b, old(tiles)[b.slab][i].size);
              hand == old(hand) + x && Live() == old(Live()) - x
    {
      FreeStep(slabs, tags, tiles, lists.lists, hand, refs, |mappings|, b, i);
      ghost var allocSize := -tags[b.slab][b.off - TAG].after;
      assert allocSize > 0 && Rounded(size) <= allocSize <= Rounded(size) + HEAD + TAG;
      assert -tags[b.slab][b.off + allocSize].before == allocSize;
      SetMarks(b, tiles[b.slab][i]);
      refs := refs[b := ref];
      hand := hand + Only(b, tiles[b.slab][i].size);
      tiles := FlippedTiles(tiles, b.slab, i);
    }

    method CutTags(b: Block, size: nat, newSize: nat, left: nat)
      requires size == newSize + TAG + left && Tagged(tags, b, Tile(size, true))
      modifies this`tags
      ensures tags == Cut(old(tags), b, newSize, left)
    {
      var m := tags[b.slab];
      m := SetBefore(m, b.off + size, left);
      m := SetAfter(m, b.off - TAG, newSize);
      m := m[b.off + newSize := Tag(newSize, left)];
      tags := tags[b.slab := m];
    }

    /** Cut a free block down to `newSize` if a block of its own can be made of the rest. */
    method BreakBlock(b: Block, newSize: nat, ghost i: nat) returns (rest: Option<Block>)
      requires Core() && Stands(tiles, b, i) && tiles[b.slab][i].free && (b, tiles[b.slab][i].size as int) in hand
      requires newSize >= HEAD && newSize % 8 == 0
      modifies this`tags, this`tiles, this`hand, this`refs
      ensures Core() && Live() == old(Live())
      ensures rest.None? <==> old(tiles)[b.slab][i].size < newSize + TAG + HEAD
      ensures rest.None? ==> tiles == old(tiles) && hand == old(hand)
      ensures rest.Some? ==>
                var size := old(tiles)[b.slab][i].size;
                && tiles == CutTiles(old(tiles), b.slab, i, newSize, size - newSize - TAG)
                && hand == old(hand) - Only(b, size) + Halves(b, newSize, size - newSize - TAG)
                && rest.value == Block(b.slab, b.off + newSize + TAG)
    {
      TaggedAt(slabs, tags, tiles, b.slab, i);
      var size := tags[b.slab][b.off - TAG].after;
      var left := size - (newSize + TAG);
      if left < HEAD {
        return None;
      }
      CutStep(slabs, tags, tiles, lists.lists, hand, refs, |mappings|, b, i, newSize, left);
      CutTags(b, size, newSize, left);
      var r := Block(b.slab, b.off + newSize + TAG);
      refs := refs[r := refs[b] + newSize + TAG];
      hand := hand - Only(b, size) + Halves(b, newSize, left);
      tiles := CutTiles(tiles, b.slab, i, newSize, left);
      rest := Some(r);
    }

    method MergeTags(first: Block, last: Block, ghost t: Tile, ghost u: Tile)
      requires Tagged(tags, first, t) && Tagged(tags, last, u) && t.free && u.free
      requires last == Block(first.slab, first.off + t.size + TAG)
      modifies this`tags
      ensures tags == Merged(old(tags), first, t.size, u.size)
    {
      var m := tags[first.slab];
      var sizeFirst := m[first.off - TAG].after;
      var sizeLast := m[last.off - TAG].after;
      var newSize := sizeFirst + sizeLast + TAG;
      m := SetAfter(m, first.off - TAG, newSize);
      m := SetBefore(m, last.off + sizeLast, newSize);
      tags := tags[first.slab := m];
    }

    /** Make one free block of two neighbours. */
    method MergeBlocks(first: Block, last: Block, ghost i: nat, ghost m: nat, ghost n: nat)
      requires Core() && Stands(tiles, first, i) && i + 1 < |tiles[first.slab]|
      requires tiles[first.slab][i] == Tile(m, true) && tiles[first.slab][i + 1] == Tile(n, true)
      requires last == Block(first.slab, first.off + m + TAG) && Halves(first, m, n) <= hand
      modifies this`tags, this`tiles, this`hand
      ensures Core() && Live() == old(Live())
      ensures tiles == MergedTiles(old(tiles), first.slab, i)
      ensures hand == old(hand) - Halves(first, m, n) + Only(first, m + TAG + n)
    {
      MergeStep(slabs, tags, tiles, lists.lists, hand, refs, |mappings|, first, i, m, n);
      MergeTags(first, last, Tile(m, true), Tile(n, true));
      hand := hand - Halves(first, m, n) + Only(first, m + TAG + n);
      tiles := MergedTiles(tiles, first.slab, i);
    }

    // ---- Free lists ----

    method PushEntry(b: Block, ghost i: nat)
      requires lists.Valid() && Core() && Stands(tiles, b, i) && tiles[b.slab][i].free
      requires (b, tiles[b.slab][i].size as int) in hand
      modifies this`hand, lists
      ensures lists.Valid() && Core() && hand == old(hand) - Only(b, tiles[b.slab][i].size)
    {
      ghost var x := (b, tiles[b.slab][i].size as int);
      TaggedAt(slabs, tags, tiles, b.slab, i);
      InHand(lists.lists, tiles, hand, x);
      PushStep(lists.lists, tiles, hand, x);
      var size := tags[b.slab][b.off - TAG].after;
      lists.Push(b, size);
      hand := hand - {x};
    }

    method RemoveEntry(b: Block, ghost i: nat)
      requires lists.Valid() && Core() && Stands(tiles, b, i) && tiles[b.slab][i].free
      requires (b, tiles[b.slab][i].size as int) !in hand
      modifies this`hand, lists
      ensures lists.Valid() && Core() && hand == old(hand) + Only(b, tiles[b.slab][i].size)
    {
      ghost var x := (b, tiles[b.slab][i].size as int);
      TaggedAt(slabs, tags, tiles, b.slab, i);
      TileIn(tiles, b.slab, i);
      ghost var k := InList(lists.lists, tiles, hand, x);
      TakeStep(lists.lists, tiles, hand, x.1, k);
      var size := tags[b.slab][b.off - TAG].after;
      lists.Remove(b, size, k);
      hand := hand + {x};
    }

    method PopEntry(size: int) returns (b: Block, ghost i: nat)
      requires lists.Valid() && Core() && size in lists.heads
      modifies this`hand, lists
      ensures Stands(tiles, b, i) && tiles[b.slab][i].free && tiles[b.slab][i].size == size
      ensures size in old(lists.lists) && |old(lists.lists)[size]| > 0 && b == old(lists.lists)[size][0]
      ensures lists.Valid() && Core() && hand == old(hand) + Only(b, tiles[b.slab][i].size)
    {
      TakeStep(lists.lists, tiles, hand, size, 0);
      ghost var x := (lists.lists[size][0], size);
      i := FindTile(tiles, x, true);
      b := lists.Pop(size);
      hand := hand + {x};
    }

    // ---- Growing ----

    method AllocatedSize() returns (sz: nat)
      ensures sz == Total(slabs)
    {
      sz := 0;
      for k := 0 to |slabs|
        invariant sz == Total(slabs[..k])
      {
        assert slabs[..k + 1][..k] == slabs[..k];
        sz := sz + slabs[k].size;
      }
      assert slabs[..|slabs|] == slabs;
    }

    /**
     * How large the next slab is: as much as there is already, more if the request needs it, never more than a section.
     */
    method NextSlabSize(size: nat) returns (newSize: nat)
      requires PlacedOk(|mappings|, slabs)
      ensures MINIMAL <= newSize <= SECTION && newSize % 8 == 0
      ensures newSize == SECTION || newSize >= Total(slabs)
      ensures newSize > MINIMAL && newSize > Total(slabs) ==> newSize < size + 2 * TAG + MINIMAL
      ensures Fits(size) ==> newSize >= size + 2 * TAG
      ensures !Fits(size) ==> newSize == SECTION
      ensures newSize == SlabSize(slabs, size)
    {
      newSize := MINIMAL;
      ghost var n := 1;
      while newSize < size + 2 * TAG
        invariant newSize == n * MINIMAL && n >= 1 && newSize < size + 2 * TAG + MINIMAL
      {
        newSize, n := newSize + MINIMAL, n + 1;
      }
      LeastMultiple(size + 2 * TAG, n);
      var already := AllocatedSize();
      TotalAligned(slabs);
      if newSize < already {
        newSize := already;
      }
      if newSize > SECTION {
        newSize := SECTION;
      }
    }

    method ExtendFastMapping(addr: nat)
      modifies this`table
      ensures table == old(table) + [addr]
    {
      table := table + [addr];
    }

    /** Write the two end tags of slab j around one free block. */
    method SlabToEntry(j: nat, refStart: nat) returns (b: Block)
      requires j < |slabs| == |tags| && slabs[j].refEnd == refStart + slabs[j].size && slabs[j].size >= 2 * TAG
      modifies this`tags, this`refs
      ensures b == Block(j, TAG) && refs == old(refs)[b := refStart + TAG]
      ensures |tags| == |old(tags)| && TagsOk(tags[j], Whole(slabs[j])) && tags == old(tags)[j := tags[j]]
    {
      var size := slabs[j].refEnd - refStart - 2 * TAG;
      WholeTags(tags[j], size);
      tags := tags[j := tags[j][0 := Tag(0, size)][size + TAG := Tag(size, 0)]];
      b := Block(j, TAG);
      refs := refs[b := refStart + TAG];
    }

    /** Reserve the next section of the ref space for a new slab. */
    method AddSlab(newSize: nat) returns (ref: nat)
      requires Space() && MINIMAL <= newSize <= SECTION && newSize % 8 == 0
      modifies this`slabs, this`table, this`nextAddr
      ensures Space() && ref == (|mappings| + |old(slabs)|) * SECTION
      ensures slabs == old(slabs) + [Slab(ref + newSize, newSize, old(nextAddr))]
    {
      ref := if |slabs| == 0 then baseline else slabs[|slabs| - 1].refEnd;
      PlaceNext(baseline, |mappings|, slabs);
      ref := AlignUp(ref);
      var slab := Slab(ref + newSize, newSize, nextAddr);
      nextAddr := nextAddr + 1;
      slabs := slabs + [slab];
      ExtendFastMapping(slab.addr);
    }

    /** Write the tags of the slab at `ref` that has been added last. */
    method TagSlab(ref: nat) returns (b: Block, ghost t: map<nat, Tag>)
      requires |slabs| == |tags| + 1 && slabs[|tags|].refEnd == ref + slabs[|tags|].size
      requires slabs[|tags|].size >= 2 * TAG
      modifies this`tags, this`refs
      ensures b == Block(|old(tags)|, TAG) && refs == old(refs)[b := ref + TAG]
      ensures tags == old(tags) + [t] && TagsOk(t, Whole(slabs[|old(tags)|]))
    {
      tags := tags + [map[]];
      b := SlabToEntry(|slabs| - 1, ref);
      t := tags[|tags| - 1];
    }

    /** Make one free block of the slab at `ref` that has been added last. */
    method InitSlab(ref: nat, ghost before: seq<Slab>, ghost slab: Slab) returns (b: Block)
      requires slabs == before + [slab] && slab.refEnd == ref + slab.size && slab.size >= 2 * TAG + HEAD
      requires slab.size % 8 == 0
      requires CoreOk(before, tags, tiles, lists.lists, hand, refs, |mappings|)
      requires ref == (|mappings| + |before|) * SECTION
      modifies this`tags, this`refs, this`tiles, this`hand
      ensures Core() && tiles == old(tiles) + [Whole(slab)]
      ensures b == Block(|before|, TAG) && Stands(tiles, b, 0) && hand == old(hand) + Only(b, slab.size - 2 * TAG)
      ensures Live() == old(Live())
    {
      ghost var t;
      b, t := TagSlab(ref);
      GrowStep(before, old(tags), tiles, lists.lists, hand, old(refs), |mappings|, slab, t);
      hand := hand + Only(b, slab.size - 2 * TAG);
      tiles := tiles + [Whole(slab)];
    }

    /** Add a slab behind the last one; its one block comes into the hand. */
    method GrowSlab(size: nat) returns (b: Block)
      requires Space() && Core() && Quiet(tiles)
      modifies this`slabs, this`table, this`tags, this`refs, this`nextAddr, this`tiles, this`hand
      ensures Space() && Core() && Quiet(tiles)
      ensures |slabs| == |old(slabs)| + 1 && slabs[..|old(slabs)|] == old(slabs)
      ensures slabs[|old(slabs)|].size == SlabSize(old(slabs), size)
      ensures tiles == old(tiles) + [Whole(slabs[|old(slabs)|])]
      ensures b == Block(|old(slabs)|, TAG) && Stands(tiles, b, 0)
      ensures hand == old(hand) + Only(b, tiles[b.slab][0].size)
      ensures Fits(size) ==> tiles[b.slab][0].size >= size
      ensures !Fits(size) ==> tiles[b.slab][0].size == SECTION - 2 * TAG
      ensures Live() == old(Live())
    {
      var newSize := NextSlabSize(size);
      var ref := AddSlab(newSize);
      QuietGrow(tiles, slabs[|slabs| - 1]);
      b := InitSlab(ref, old(slabs), slabs[|slabs| - 1]);
    }

    // ---- Allocation ----

    /** Cut the block in hand to size and put what is left back into the lists. */
    method Carve(b: Block, size: nat, ghost i: nat)
      requires lists.Valid() && Core() && Stands(tiles, b, i) && tiles[b.slab][i].free
      requires hand == Only(b, tiles[b.slab][i].size)
      requires size >= HEAD && size % 8 == 0 && Quiet(tiles)
      modifies this`tags, this`tiles, this`hand, this`refs, lists
      ensures lists.Valid() && Core() && Stands(tiles, b, i) && tiles[b.slab][i].free
      ensures hand == Only(b, tiles[b.slab][i].size)
      ensures Neighbours(tiles, b.slab, i, i + 1) && Live() == old(Live())
      ensures tiles[b.slab][i].size
           == if old(tiles)[b.slab][i].size < size + TAG + HEAD then old(tiles)[b.slab][i].size else size
    {
      ghost var was, all := tiles, tiles[b.slab][i].size;
      var rest := BreakBlock(b, size, i);
      if rest.Some? {
        CarveCut(was, b, i, size, all);
        PushEntry(rest.value, i + 1);
      } else {
        QuietAny(tiles, b.slab, i, i + 1);
      }
    }

    /** A free block with room for the request and for a second block, or a new slab. */
    method TakeBlock(size: nat, hint: Option<int>) returns (b: Block, ghost i: nat)
      requires Space() && lists.Valid() && Core() && hand == {} && Quiet(tiles)
      requires Hinted(lists.heads, size, hint)
      modifies this`slabs, this`table, this`tags, this`refs, this`nextAddr, this`tiles, this`hand, lists
      ensures Space() && lists.Valid() && Core() && Quiet(tiles) && Live() == old(Live())
      ensures Stands(tiles, b, i) && tiles[b.slab][i].free && hand == Only(b, tiles[b.slab][i].size)
      ensures Fits(size) ==> tiles[b.slab][i].size >= size
      ensures Taken(old(lists.lists), size, old(slabs), slabs, b, tiles[b.slab][i].size)
    {
      var list := lists.FindLarger(hint, size + TAG + HEAD);
      if list.Some? {
        b, i := PopEntry(list.value);
        DropNothing(Only(b, tiles[b.slab][i].size));
      } else {
        b := GrowSlab(size);
        i := 0;
        DropNothing(Only(b, tiles[b.slab][i].size));
      }
    }

    /** A free block of exactly the size. */
    method TakeExact(size: nat) returns (b: Block, ghost i: nat)
      requires Space() && lists.Valid() && Core() && hand == {} && Quiet(tiles) && size in lists.heads
      modifies this`hand, lists
      ensures lists.Valid() && Core()
      ensures Stands(tiles, b, i) && tiles[b.slab][i].free && hand == Only(b, tiles[b.slab][i].size)
      ensures Neighbours(tiles, b.slab, i, i + 1) && tiles[b.slab][i].size == size && Fits(size)
      ensures Chosen(old(lists.lists), size, old(slabs), slabs, b, tiles[b.slab][i].size)
    {
      b, i := PopEntry(size);
      DropNothing(Only(b, tiles[b.slab][i].size));
      QuietAny(tiles, b.slab, i, i + 1);
      BlockFits(slabs, tags, tiles, |mappings|, b, i);
    }

    /** A larger block, or a new slab, cut to the size. */
    method TakeAndCarve(size: nat, hint: Option<int>) returns (b: Block, ghost i: nat)
      requires Space() && lists.Valid() && Core() && hand == {} && Quiet(tiles) && size >= HEAD && size % 8 == 0
      requires Hinted(lists.heads, size, hint) && size !in lists.heads
      modifies this`slabs, this`table, this`tags, this`refs, this`nextAddr, this`tiles, this`hand, lists
      ensures Space() && lists.Valid() && Core()
      ensures Stands(tiles, b, i) && tiles[b.slab][i].free && hand == Only(b, tiles[b.slab][i].size)
      ensures Neighbours(tiles, b.slab, i, i + 1) && Live() == old(Live())
      ensures tiles[b.slab][i].size <= size + HEAD + TAG
      ensures tiles[b.slab][i].size >= size <==> Fits(size)
      ensures Chosen(old(lists.lists), size, old(slabs), slabs, b, tiles[b.slab][i].size)
    {
      b, i := TakeBlock(size, hint);
      Carve(b, size, i);
      BlockFits(slabs, tags, tiles, |mappings|, b, i);
    }

    /** A block for a rounded request, still marked free. */
    method AllocateBlock(size: nat) returns (b: Block, ghost i: nat)
      requires Space() && lists.Valid() && Core() && hand == {} && Quiet(tiles)
      requires size >= HEAD && size % 8 == 0
      modifies this`slabs, this`table, this`tags, this`refs, this`nextAddr, this`tiles, this`hand, lists
      ensures Space() && lists.Valid() && Core()
      ensures Stands(tiles, b, i) && tiles[b.slab][i].free && hand == Only(b, tiles[b.slab][i].size)
      ensures Neighbours(tiles, b.slab, i, i + 1) && Live() == old(Live())
      ensures tiles[b.slab][i].size <= size + HEAD + TAG
      ensures tiles[b.slab][i].size >= size <==> Fits(size)
      ensures Chosen(old(lists.lists), size, old(slabs), slabs, b, tiles[b.slab][i].size)
    {
      var list := lists.Find(size);
      if list.Some? && list.value == size {
        b, i := TakeExact(size);
      } else {
        b, i := TakeAndCarve(size, list);
      }
    }

    /** Find a block for a rounded request and mark it in use. */
    method TakeAndMark(size: nat) returns (r: MemRef, ghost n: nat)
      requires Sound() && size >= HEAD && size % 8 == 0
      modifies this`slabs, this`table, this`tags, this`refs, this`nextAddr, this`tiles, this`hand, lists
      ensures Sound() && r.ref == RefAt(|mappings|, r.block)
      ensures Live() == old(Live()) + Only(r.block, n) && (forall x :: x in old(Live()) ==> x.0 != r.block)
      ensures n <= size + HEAD + TAG && (n >= size <==> Fits(size))
      ensures BestFit(old(tiles), size, old(slabs), slabs, Some(r.block), n)
    {
      ghost var i;
      var b: Block;
      b, i := AllocateBlock(size);
      ChosenFits(old(lists.lists), old(tiles), size, old(slabs), slabs, b, tiles[b.slab][i].size);
      r, n := HandOut(b, i);
    }

    /** Mark the block in hand as in use. */
    method HandOut(b: Block, ghost i: nat) returns (r: MemRef, ghost n: nat)
      requires Space() && lists.Valid() && Core() && Stands(tiles, b, i) && tiles[b.slab][i].free
      requires hand == Only(b, tiles[b.slab][i].size) && Neighbours(tiles, b.slab, i, i + 1)
      modifies this`tags, this`tiles, this`hand
      ensures Sound() && r == MemRef(RefAt(|mappings|, b), b) && n == old(tiles)[b.slab][i].size
      ensures Live() == old(Live()) + Only(b, n) && (forall x :: x in old(Live()) ==> x.0 != b)
    {
      n := tiles[b.slab][i].size;
      QuietAllocate(tiles, b.slab, i);
      RefKnown(tiles, refs, |mappings|, b, i);
      FreshBlock(tiles, b, i);
      MarkAllocated(b, i);
      DropNothing(Only(b, n));
      r := MemRef(refs[b], b);
    }

    /**
     * Allocate `size` bytes. The block is at least the rounded request exactly if the request fits a section with its
     * two end tags; the check on entry admits one size more.
     */
    method Alloc(size: nat) returns (r: Option<MemRef>, ghost n: nat)
      requires Valid() && 0 < size < SECTION && size % 8 == 0
      modifies this`slabs, this`table, this`tags, this`refs, this`nextAddr, this`state, this`tiles, this`hand,
               this`asked, lists
      ensures Valid()
      ensures r.None? <==> old(state).Invalid?
      ensures r.None? ==> asked == old(asked) && state == old(state)
      ensures r.Some? ==> state.Dirty? && Granted(old(asked), asked, r.value.block, n, size)
      ensures r.Some? ==> r.value.ref == RefAt(|mappings|, r.value.block) && r.value.ref >= baseline
      ensures BestFit(old(tiles), Rounded(size), old(slabs), slabs, BlockOf(r), n)
    {
      if state.Invalid? {
        return None, 0;
      }
      state := Dirty;
      var m: MemRef;
      m, n := Grant(size, Rounded(size));
      RefAbove(baseline, mappings, m.block);
      r := Some(m);
    }

    /** Take a block of the rounded size and note the request. */
    method Grant(size: nat, rounded: nat) returns (m: MemRef, ghost n: nat)
      requires Sound() && AskedOk(tiles, asked) && 0 < size < SECTION && size % 8 == 0 && rounded == Rounded(size)
      modifies this`slabs, this`table, this`tags, this`refs, this`nextAddr, this`tiles, this`hand, this`asked, lists
      ensures Sound() && AskedOk(tiles, asked) && Granted(old(asked), asked, m.block, n, size)
      ensures m.ref == RefAt(|mappings|, m.block)
      ensures BestFit(old(tiles), rounded, old(slabs), slabs, Some(m.block), n)
    {
      FitsRounded(size);
      m, n := TakeAndMark(rounded);
      AskedMore(old(tiles), tiles, asked, m.block, n, size);
      asked := asked[(m.block, n as int) := size];
    }

    /** Take the free block `listed` out of its list and merge it with its neighbour, the block in hand. */
    method Absorb(first: Block, last: Block, listed: Block, ghost i: nat, ghost k: nat, ghost m: nat, ghost n: nat)
      requires lists.Valid() && Core() && Stands(tiles, first, i) && i + 1 < |tiles[first.slab]|
      requires tiles[first.slab][i] == Tile(m, true) && tiles[first.slab][i + 1] == Tile(n, true)
      requires last == Block(first.slab, first.off + m + TAG)
      requires if listed == last then k == i + 1 && hand == Only(first, m)
               else listed == first && k == i && hand == Only(last, n)
      modifies this`tags, this`tiles, this`hand, lists
      ensures lists.Valid() && Core() && Live() == old(Live())
      ensures tiles == MergedTiles(old(tiles), first.slab, i) && hand == Only(first, m + TAG + n)
    {
      assert Stands(tiles, listed, k);
      RemoveEntry(listed, k);
      HandMerged(hand, first, last, m, n, m + TAG + n);
      MergeBlocks(first, last, i, m, n);
    }

    /** Merge the block in hand with the block before it if that is free. */
    method MergePrev(block: Block, ghost i: nat) returns (b: Block, ghost k: nat)
      requires lists.Valid() && Core() && Stands(tiles, block, i) && tiles[block.slab][i].free
      requires hand == Only(block, tiles[block.slab][i].size)
      requires Neighbours(tiles, block.slab, if i > 0 then i - 1 else 0, i + 1)
      modifies this`tags, this`tiles, this`hand, lists
      ensures lists.Valid() && Core() && Stands(tiles, b, k) && tiles[b.slab][k].free
      ensures hand == Only(b, tiles[b.slab][k].size)
      ensures Neighbours(tiles, b.slab, k, k + 1) && Live() == old(Live())
    {
      ghost var size: nat := tiles[block.slab][i].size;
      TagsNear(slabs, tags, tiles, block, i);
      var before := tags[block.slab][block.off - TAG].before;
      if before <= 0 {
        Narrow(tiles, block.slab, if i > 0 then i - 1 else 0, i + 1, i, i + 1);
        b, k := block, i;
      } else {
        b, k := Block(block.slab, block.off - TAG - before), i - 1;
        QuietMerge(tiles, block.slab, k, k, k + 2);
        MergedStands(tiles, b, k);
        Absorb(b, block, b, k, k, before, size);
      }
    }

    /** Merge the block in hand with the block behind it if that is free. */
    method MergeNext(b: Block, ghost i: nat)
      requires lists.Valid() && Core() && Stands(tiles, b, i) && tiles[b.slab][i].free
      requires hand == Only(b, tiles[b.slab][i].size) && Neighbours(tiles, b.slab, i, i + 1)
      modifies this`tags, this`tiles, this`hand, lists
      ensures lists.Valid() && Core() && Stands(tiles, b, i) && tiles[b.slab][i].free
      ensures hand == Only(b, tiles[b.slab][i].size)
      ensures Quiet(tiles) && Live() == old(Live())
    {
      TagsNear(slabs, tags, tiles, b, i);
      var own := tags[b.slab][b.off - TAG].after;
      var after := tags[b.slab][b.off + own].after;
      if after <= 0 {
        Narrow(tiles, b.slab, i, i + 1, i, i);
      } else {
        var next := Block(b.slab, b.off + own + TAG);
        QuietMerge(tiles, b.slab, i, i, i + 1);
        MergedStands(tiles, b, i);
        Absorb(b, next, next, i, i + 1, own, after);
        Narrow(tiles, b.slab, i, i, i, i);
      }
    }

    /** Give the block in hand back: merge it with free neighbours and list it. */
    method FreeBlock(block: Block, ghost i: nat)
      requires lists.Valid() && Core() && Stands(tiles, block, i) && tiles[block.slab][i].free
      requires hand == Only(block, tiles[block.slab][i].size)
      requires Neighbours(tiles, block.slab, if i > 0 then i - 1 else 0, i + 1)
      modifies this`tags, this`tiles, this`hand, lists
      ensures lists.Valid() && Core() && hand == {} && Quiet(tiles) && Live() == old(Live())
    {
      ghost var k;
      var b: Block;
      b, k := MergePrev(block, i);
      MergeNext(b, k);
      PushEntry(b, k);
      assert Only(b, tiles[b.slab][k].size) - Only(b, tiles[b.slab][k].size) == {};
    }

    /** Take a block out of use and back into the lists. */
    method Release(ref: nat, b: Block, size: nat, ghost n: nat)
      requires Sound() && (b, n as int) in Live() && ref == RefAt(|mappings|, b)
      requires Rounded(size) <= n <= Rounded(size) + HEAD + TAG
      modifies this`tags, this`refs, this`tiles, this`hand, lists
      ensures Sound() && Live() == old(Live()) - Only(b, n)
    {
      ghost var i := FindTile(tiles, (b, n as int), false);
      QuietFree(tiles, b.slab, i);
      FlippedStands(tiles, b, i);
      MarkFreed(b, ref, size, i);
      DropNothing(Only(b, n));
      FreeBlock(b, i);
    }

    /** Free a live block; `size` is the capacity its header holds, which is what was asked for. */
    method Free(ref: nat, b: Block, size: nat, ghost n: nat)
      requires Valid() && (b, n as int) in asked && asked[(b, n as int)] == size && Fits(size)
      requires ref == RefAt(|mappings|, b)
      modifies this`tags, this`refs, this`state, this`tiles, this`hand, this`asked, lists
      ensures Valid()
      ensures state == if old(state).Invalid? then Invalid else Dirty
      ensures asked == if old(state).Invalid? then old(asked) else old(asked) - {(b, n as int)}
    {
      if !state.Invalid? {
        state := Dirty;
        Forget(ref, b, size, n);
      }
    }

    /** Take back a block and the note of its request. */
    method Forget(ref: nat, b: Block, size: nat, ghost n: nat)
      requires Sound() && AskedOk(tiles, asked) && (b, n as int) in asked && asked[(b, n as int)] == size && Fits(size)
      requires ref == RefAt(|mappings|, b)
      modifies this`tags, this`refs, this`tiles, this`hand, this`asked, lists
      ensures Sound() && AskedOk(tiles, asked) && asked == old(asked) - {(b, n as int)}
    {
      Release(ref, b, size, n);
      AskedLess(old(tiles), tiles, asked, b, n);
      asked := asked - {(b, n as int)};
    }

    /** Move a live block to one of another size (the copying of its bytes is not modelled). */
    method Realloc(ref: nat, b: Block, oldSize: nat, newSize: nat, ghost m: nat) returns (r: Option<MemRef>,
                   ghost n: nat)
      requires Valid() && (b, m as int) in asked && asked[(b, m as int)] == oldSize && Fits(oldSize)
      requires ref == RefAt(|mappings|, b) && 0 < newSize < SECTION && newSize % 8 == 0
      modifies this`slabs, this`table, this`tags, this`refs, this`nextAddr, this`state, this`tiles, this`hand,
               this`asked, lists
      ensures Valid()
      ensures r.None? <==> old(state).Invalid?
      ensures r.None? ==> asked == old(asked) && state == old(state)
      ensures r.Some? ==> state.Dirty? && r.value.ref == RefAt(|mappings|, r.value.block)
      ensures r.Some? ==> forall x :: x in old(asked) ==> x.0 != r.value.block
      ensures r.Some? ==>
                asked == old(asked)[(r.value.block, n as int) := newSize] - {(b, m as int)} && Answers(n, newSize)
    {
      r, n := Alloc(newSize);
      if r.Some? {
        Free(ref, b, oldSize, m);
      }
    }

    // ---- Rebuilding the lists, resetting, following the file ----

    /** Turn slab j into one listed block, the slabs before it being done. */
    method RebuildOne(j: nat, refStart: nat)
      requires PlacedOk(|mappings|, slabs) && j < |slabs| == |tags| && refStart == (|mappings| + j) * SECTION
      requires lists.Valid() && CoreOk(slabs[..j], tags[..j], Wholes(slabs[..j]), lists.lists, {}, refs, |mappings|)
      modifies this`tags, this`refs, lists
      ensures |tags| == |slabs|
      ensures lists.Valid()
      ensures CoreOk(slabs[..j + 1], tags[..j + 1], Wholes(slabs[..j + 1]), lists.lists, {}, refs, |mappings|)
    {
      ghost var was, was' := tags, refs;
      var b := SlabToEntry(j, refStart);
      RebuildStep(slabs, was, lists.lists, was', |mappings|, j, tags[j]);
      lists.Push(b, slabs[j].size - 2 * TAG);
    }

    /** Forget all blocks and make one free block of every slab. */
    method RebuildFreelists()
      requires MappedOk(baseline, mappings) && PlacedOk(|mappings|, slabs) && |tags| == |slabs|
      modifies this`tags, this`refs, this`tiles, this`hand, lists
      ensures lists.Valid() && Core() && hand == {} && tiles == Wholes(slabs)
      ensures Quiet(tiles) && Live() == {}
    {
      lists.Clear();
      var refStart := AlignUp(baseline);
      for j := 0 to |slabs|
        invariant |tags| == |slabs| && refStart == (|mappings| + j) * SECTION
        invariant lists.Valid() && CoreOk(slabs[..j], tags[..j], Wholes(slabs[..j]), lists.lists, {}, refs, |mappings|)
      {
        RebuildOne(j, refStart);
        AlignUpIs(slabs[j].refEnd, |mappings| + j);
        refStart := AlignUp(slabs[j].refEnd);
      }
      assert slabs[..|slabs|] == slabs && tags[..|tags|] == tags;
      tiles, hand := Wholes(slabs), {};
      WholesFree(slabs);
    }

    /** Release slabs until at most one, of the minimal size, is left. The last translation is the last slab's. */
    method PopSlabs()
      requires Space() && |tags| == |slabs|
      modifies this`slabs, this`table, this`tags
      ensures Space() && |tags| == |slabs| && slabs == KeptSlabs(old(slabs))
    {
      while |slabs| > 1 || (|slabs| == 1 && slabs[0].size > MINIMAL)
        invariant Space() && |tags| == |slabs| && slabs <= old(slabs)
        invariant slabs == [] ==> KeptSlabs(old(slabs)) == []
        decreases |slabs|
      {
        var last := |slabs| - 1;
        assert table[|table| - 1] == slabs[last].addr;
        table := table[..|table| - 1];
        slabs, tags := slabs[..last], tags[..last];
      }
    }

    method Wipe()
      requires Space() && |tags| == |slabs|
      modifies this`slabs, this`table, this`tags, this`refs, this`tiles, this`hand, this`asked, lists
      ensures Sound() && AskedOk(tiles, asked) && asked == map[] && slabs == KeptSlabs(old(slabs)) && Small(slabs)
    {
      PopSlabs();
      RebuildFreelists();
      NothingAsked(tiles);
      asked := map[];
    }

    /** Forget what was allocated and keep at most one slab, of the minimal size. */
    method Reset()
      requires Valid()
      modifies this`slabs, this`table, this`tags, this`refs, this`state, this`tiles, this`hand, this`asked, lists
      ensures Valid() && state.Clean? && asked == map[] && Small(slabs) && slabs == KeptSlabs(old(slabs))
    {
      if !state.Clean? {
        Wipe();
        state := Clean;
      }
    }

    /** Map the sections from..to of a file of the given size. */
    method MapSections(from: nat, to: nat, fileSize: nat) returns (maps: seq<Mapping>)
      requires from <= to && to * SECTION == AlignUp(fileSize)
      modifies this`nextAddr
      ensures |maps| == to - from && nextAddr == old(nextAddr) + |maps|
      ensures forall k :: 0 <= k < |maps| ==>
                maps[k].len == SectionSize(from + k, fileSize) && maps[k].addr == old(nextAddr) + k
    {
      maps := [];
      AlignUpOk(fileSize);
      for k := from to to
        invariant |maps| == k - from && nextAddr == old(nextAddr) + |maps|
        invariant forall i :: 0 <= i < |maps| ==>
                    maps[i].len == SectionSize(from + i, fileSize) && maps[i].addr == old(nextAddr) + i
      {
        maps := maps + [Mapping(nextAddr, SectionSize(k, fileSize))];
        nextAddr := nextAddr + 1;
      }
    }

    /** Move every slab up by a displacement. */
    method Rebase(displacement: nat)
      modifies this`slabs
      ensures |slabs| == |old(slabs)|
      ensures forall k :: 0 <= k < |slabs| ==> slabs[k] == old(slabs)[k].(refEnd := old(slabs)[k].refEnd + displacement)
    {
      if displacement > 0 {
        var n := |slabs|;
        for k := 0 to n
          invariant |slabs| == n == |old(slabs)|
          invariant forall i :: 0 <= i < k ==> slabs[i] == old(slabs)[i].(refEnd := old(slabs)[i].refEnd + displacement)
          invariant forall i :: k <= i < n ==> slabs[i] == old(slabs)[i]
        {
          slabs := slabs[k := slabs[k].(refEnd := slabs[k].refEnd + displacement)];
        }
      }
    }

    method RebuildTranslations(replaced: bool, from: nat)
      requires |table| <= |mappings| + |slabs| && from <= |mappings|
      requires !replaced ==> forall k :: 0 <= k < from && k < |table| ==> table[k] == mappings[k].addr
      modifies this`table
      ensures TableOk(mappings, slabs, table)
    {
      var first := from;
      if replaced || |table| < |mappings| + |slabs| {
        table := seq(|mappings| + |slabs|, _ => 0);
        first := 0;
      }
      for i := first to |mappings|
        invariant |table| == |mappings| + |slabs|
        invariant forall k :: 0 <= k < i ==> table[k] == mappings[k].addr
      {
        table := table[i := mappings[i].addr];
      }
      for i := 0 to |slabs|
        invariant |table| == |mappings| + |slabs|
        invariant forall k :: 0 <= k < |mappings| ==> table[k] == mappings[k].addr
        invariant forall k :: 0 <= k < i ==> table[|mappings| + k] == slabs[k].addr
      {
        table := table[|mappings| + i := slabs[i].addr];
      }
    }

    /**
     * Map the sections a file of the new size has. A section that was partly mapped is extended in place or, if
     * `inPlace` is false, mapped anew. Returns whether it was replaced and how many mappings stayed.
     */
    method ExtendMappings(fileSize: nat, inPlace: bool) returns (replaced: bool, kept: nat)
      requires MappedOk(baseline, mappings) && fileSize > baseline
      modifies this`mappings, this`nextAddr
      ensures MappedOk(fileSize, mappings) && |mappings| >= |old(mappings)| && kept <= |mappings|
      ensures replaced <==> !inPlace && baseline < AlignUp(baseline)
      ensures kept == if replaced then |old(mappings)| - 1 else |old(mappings)|
      ensures forall k :: 0 <= k < kept ==> mappings[k].addr == old(mappings)[k].addr
      ensures nextAddr == old(nextAddr) + |mappings| - kept
      ensures forall k :: kept <= k < |mappings| ==> mappings[k].addr == old(nextAddr) + k - kept
    {
      var base := AlignUp(baseline);
      kept := |mappings|;
      replaced := false;
      MoreSections(baseline, |mappings|, fileSize);
      if baseline < base {
        if inPlace {
          mappings := mappings[kept - 1 := mappings[kept - 1].(len := SectionSize(kept - 1, fileSize))];
        } else {
          replaced, kept := true, kept - 1;
        }
      }
      var maps := MapSections(kept, AlignUp(fileSize) / SECTION, fileSize);
      if replaced {
        mappings := mappings[..kept];
      }
      FullSections(baseline, |old(mappings)|, fileSize);
      mappings := mappings + maps;
    }

    /** Map what a larger file has, and move the slabs behind it. */
    method MoveSpace(fileSize: nat, inPlace: bool) returns (replaced: bool, kept: nat)
      requires Space() && fileSize > baseline
      modifies this`baseline, this`mappings, this`nextAddr, this`slabs
      ensures baseline == fileSize && MappedOk(baseline, mappings) && PlacedOk(|mappings|, slabs)
      ensures |table| <= |mappings| + |slabs| && kept <= |mappings|
      ensures !replaced ==> forall k :: 0 <= k < kept && k < |table| ==> table[k] == mappings[k].addr
      ensures |slabs| == |old(slabs)|
      ensures forall k :: 0 <= k < |slabs| ==>
                slabs[k].addr == old(slabs)[k].addr && slabs[k].size == old(slabs)[k].size
      ensures |mappings| >= |old(mappings)| && kept == Kept(old(baseline), |old(mappings)|, inPlace)
      ensures Remapped(old(mappings), mappings, kept, old(nextAddr), nextAddr)
    {
      var base := AlignUp(baseline);
      replaced, kept := ExtendMappings(fileSize, inPlace);
      baseline := fileSize;
      Rebase(AlignUp(fileSize) - base);
      PlacedMoved(|old(mappings)|, |mappings|, old(slabs), slabs);
    }

    method Follow(fileSize: nat, inPlace: bool)
      requires Space() && |tags| == |slabs| && fileSize > baseline
      modifies this`baseline, this`mappings, this`nextAddr, this`slabs, this`table, this`tags, this`refs, this`tiles,
               this`hand, lists
      ensures Sound() && Live() == {} && baseline == fileSize
      ensures |slabs| == |old(slabs)|
      ensures forall k :: 0 <= k < |slabs| ==>
                slabs[k].addr == old(slabs)[k].addr && slabs[k].size == old(slabs)[k].size
      ensures |mappings| >= |old(mappings)|
      ensures Remapped(old(mappings), mappings, Kept(old(baseline), |old(mappings)|, inPlace), old(nextAddr), nextAddr)
    {
      var replaced, kept := MoveSpace(fileSize, inPlace);
      RebuildFreelists();
      RebuildTranslations(replaced, kept);
      FreshAddresses(old(mappings), old(slabs), old(table), mappings, slabs, table, kept, old(nextAddr), nextAddr);
    }

    /** Follow the file to a larger size. Free space must be clean: the slabs move with the end of the file. */
    method UpdateReaderView(fileSize: nat, inPlace: bool)
      requires Valid() && state.Clean?
      modifies this`baseline, this`mappings, this`nextAddr, this`slabs, this`table, this`tags, this`refs, this`tiles,
               this`hand, lists
      ensures Valid()
      ensures baseline == if fileSize <= old(baseline) then old(baseline) else fileSize
      ensures |slabs| == |old(slabs)|
      ensures forall k :: 0 <= k < |slabs| ==>
                slabs[k].addr == old(slabs)[k].addr && slabs[k].size == old(slabs)[k].size
      ensures fileSize <= old(baseline) ==> mappings == old(mappings)
      ensures fileSize > old(baseline) ==>
                && |mappings| >= |old(mappings)|
                && Remapped(old(mappings), mappings, Kept(old(baseline), |old(mappings)|, inPlace), old(nextAddr),
                            nextAddr)
    {
      if fileSize > baseline {
        Follow(fileSize, inPlace);
        NothingAsked(tiles);
      }
    }
  }

  /** How many mappings stay: all of them, unless the last one is partial and cannot be extended where it is. */
  function Kept(baseline: nat, sections: nat, inPlace: bool): int {
    if !inPlace && baseline < AlignUp(baseline) then sections - 1 else sections
  }

  /** The first `kept` mappings stayed where they were; the others are at addresses not handed out before. */
  ghost predicate Remapped(was: seq<Mapping>, maps: seq<Mapping>, kept: int, next: nat, next': nat) {
    && 0 <= kept <= |was| && kept <= |maps| && next' == next + |maps| - kept
    && (forall k :: 0 <= k < kept ==> maps[k].addr == was[k].addr)
    && (forall k :: kept <= k < |maps| ==> maps[k].addr == next + k - kept)
  }

  lemma {:induction false} FreshAddresses(was: seq<Mapping>, slabs: seq<Slab>, table: seq<nat>, maps: seq<Mapping>,
                                          slabs': seq<Slab>, table': seq<nat>, kept: nat, next: nat, next': nat)
    requires TableOk(was, slabs, table) && AddressesOk(table, next) && TableOk(maps, slabs', table')
    requires Remapped(was, maps, kept, next, next') && |slabs'| == |slabs|
    requires forall k :: 0 <= k < |slabs| ==> slabs'[k].addr == slabs[k].addr
    ensures AddressesOk(table', next')
  {
    forall k | 0 <= k < |table'| ensures table'[k] < next' {
      AddressAt(was, slabs, table, maps, slabs', table', kept, next, next', k);
    }
    forall i, j | 0 <= i < j < |table'| ensures table'[i] != table'[j] {
      AddressAt(was, slabs, table, maps, slabs', table', kept, next, next', i);
      AddressAt(was, slabs, table, maps, slabs', table', kept, next, next', j);
    }
  }

  /** Where entry k of the new table comes from: an entry `r` of the old one, or a new address. */
  lemma {:induction false} AddressAt(was: seq<Mapping>, slabs: seq<Slab>, table: seq<nat>, maps: seq<Mapping>,
                                     slabs': seq<Slab>, table': seq<nat>, kept: nat, next: nat, next': nat, k: nat)
    requires TableOk(was, slabs, table) && AddressesOk(table, next) && TableOk(maps, slabs', table')
    requires Remapped(was, maps, kept, next, next') && |slabs'| == |slabs| && k < |table'|
    requires forall k :: 0 <= k < |slabs| ==> slabs'[k].addr == slabs[k].addr
    ensures kept <= k < |maps| ==> next <= table'[k] == next + k - kept < next'
    ensures !(kept <= k < |maps|) ==>
              var r := if k < kept then k else k - |maps| + |was|;
              0 <= r < |table| && table'[k] == table[r] < next
  {
    if |maps| <= k {
      var j := k - |maps|;
      assert table'[|maps| + j] == slabs'[j].addr;
      assert table[|was| + j] == slabs[j].addr;
    }
  }

  /** What cutting a block leaves: the block cut to size, and the rest in hand behind it. */
  lemma {:induction false} CarveCut(was: seq<seq<Tile>>, b: Block, i: nat, size: nat, all: nat)
    requires Stands(was, b, i) && was[b.slab][i].free && Quiet(was) && size + TAG <= all
    ensures var left: nat := all - size - TAG;
            var tiles := CutTiles(was, b.slab, i, size, left);
            && Stands(tiles, b, i) && tiles[b.slab][i] == Tile(size, true) && Neighbours(tiles, b.slab, i, i + 1)
            && Stands(tiles, Block(b.slab, b.off + size + TAG), i + 1) && tiles[b.slab][i + 1] == Tile(left, true)
            && (Block(b.slab, b.off + size + TAG), left as int) in Halves(b, size, left)
            && Only(b, all) - Only(b, all) + Halves(b, size, left) - Only(Block(b.slab, b.off + size + TAG),
                                                                          left) == Only(b, size)
  {
    CutStands(was, b, i, size, all - size - TAG);
    QuietCut(was, b.slab, i, size, all - size - TAG);
    HandCut(b, all, size, all - size - TAG);
  }

  /** The next slab goes to the next section. */
  lemma PlaceNext(baseline: nat, sections: nat, slabs: seq<Slab>)
    requires sections * SECTION == AlignUp(baseline) && PlacedOk(sections, slabs)
    ensures var ref := if |slabs| == 0 then baseline else slabs[|slabs| - 1].refEnd;
            AlignUp(ref) == (sections + |slabs|) * SECTION
  {
    if |slabs| > 0 {
      var k := |slabs| - 1;
      assert slabs[k].refEnd == (sections + k) * SECTION + slabs[k].size;
      AlignUpIs(slabs[k].refEnd, sections + k);
    }
  }

  /** No block is larger than a section less the two end tags. */
  lemma {:induction false} BlockFits(slabs: seq<Slab>, tags: seq<map<nat, Tag>>, tiles: seq<seq<Tile>>, sections: nat,
                                     b: Block, i: nat)
    requires SlabsOk(slabs, tags, tiles) && PlacedOk(sections, slabs) && Stands(tiles, b, i)
    ensures Fits(tiles[b.slab][i].size)
  {
    SlabAt(slabs, tags, tiles, b.slab);
    AtMono(tiles[b.slab], i, |tiles[b.slab]|);
    AtLow(tiles[b.slab], i);
  }

  /** `after` records one new live block of n bytes for the request. */
  ghost predicate Granted(before: map<(Block, int), nat>, after: map<(Block, int), nat>, b: Block, n: nat, size: nat) {
    && (forall x :: x in before ==> x.0 != b)
    && after == before[(b, n as int) := size] && Answers(n, size)
  }

  /** Rounding gives the least block size that holds the request and, once freed, the links of a free block. */
  lemma RoundedLeast(size: nat)
    ensures Rounded(size) >= size && Rounded(size) >= HEAD && Rounded(size) % 8 == 0
    ensures forall m: nat :: m >= size && m >= HEAD && m % 8 == 0 ==> m >= Rounded(size)
  {
  }

  lemma FitsRounded(size: nat)
    requires 0 < size < SECTION && size % 8 == 0
    ensures Rounded(size) >= HEAD && Rounded(size) % 8 == 0 && (Fits(Rounded(size)) <==> Fits(size))
  {
  }

  lemma {:induction false} RefKnown(tiles: seq<seq<Tile>>, refs: map<Block, nat>, sections: nat, b: Block, i: nat)
    requires RefsOk(tiles, refs, sections) && Stands(tiles, b, i) && tiles[b.slab][i].free
    ensures b in refs && refs[b] == RefAt(sections, b)
  {
    TileIn(tiles, b.slab, i);
    assert Item(b.slab, tiles[b.slab], i).0 == b;
  }

  lemma {:induction false} AskedMore(was: seq<seq<Tile>>, tiles: seq<seq<Tile>>, asked: map<(Block, int), nat>,
                                     b: Block, n: nat, size: nat)
    requires AskedOk(was, asked) && All(tiles, false) == All(was, false) + Only(b, n)
    requires 0 < size < SECTION && size % 8 == 0
    requires n <= Rounded(size) + HEAD + TAG && (n >= Rounded(size) <==> Fits(Rounded(size)))
    requires forall x :: x in All(was, false) ==> x.0 != b
    ensures AskedOk(tiles, asked[(b, n as int) := size]) && Granted(asked, asked[(b, n as int) := size], b, n, size)
  {
    FitsRounded(size);
  }

  lemma RefAbove(baseline: nat, mappings: seq<Mapping>, b: Block)
    requires MappedOk(baseline, mappings)
    ensures RefAt(|mappings|, b) >= baseline
  {
    AlignUpOk(baseline);
  }

  lemma {:induction false} FreshBlock(tiles: seq<seq<Tile>>, b: Block, i: nat)
    requires Stands(tiles, b, i) && tiles[b.slab][i].free
    ensures forall x :: x in All(tiles, false) ==> x.0 != b
  {
    TileIn(tiles, b.slab, i);
    forall x | x in All(tiles, false) ensures x.0 != b {
      if x.0 == b {
        OneSize(tiles, x, Item(b.slab, tiles[b.slab], i), false, true);
      }
    }
  }

  lemma {:induction false} AskedLess(was: seq<seq<Tile>>, tiles: seq<seq<Tile>>, asked: map<(Block, int), nat>,
                                     b: Block, n: nat)
    requires AskedOk(was, asked) && All(tiles, false) == All(was, false) - Only(b, n)
    ensures AskedOk(tiles, asked - {(b, n as int)})
  {
  }

  lemma MoreSections(baseline: nat, sections: nat, fileSize: nat)
    requires sections * SECTION == AlignUp(baseline) && fileSize > baseline
    ensures AlignUp(fileSize) >= AlignUp(baseline) && AlignUp(fileSize) / SECTION >= sections
    ensures AlignUp(fileSize) / SECTION * SECTION == AlignUp(fileSize)
    ensures baseline < AlignUp(baseline) ==> sections > 0 && (sections - 1) * SECTION < baseline
  {
    AlignUpOk(baseline);
    AlignUpOk(fileSize);
  }

  /** Sections that were full stay so. */
  lemma FullSections(baseline: nat, sections: nat, fileSize: nat)
    requires sections * SECTION == AlignUp(baseline) && fileSize > baseline
    ensures forall k :: 0 <= k < sections && (k + 1 < sections || baseline == AlignUp(baseline)) ==>
              SectionSize(k, baseline) == SectionSize(k, fileSize)
  {
    AlignUpOk(baseline);
    forall k | 0 <= k < sections && (k + 1 < sections || baseline == AlignUp(baseline))
      ensures SectionSize(k, baseline) == SectionSize(k, fileSize)
    {
      assert (k + 1) * SECTION <= baseline;
    }
  }

  lemma {:induction false} NothingAsked(tiles: seq<seq<Tile>>)
    requires All(tiles, false) == {}
    ensures AskedOk(tiles, map[])
  {
  }

  lemma PlacedMoved(sections: nat, sections': nat, slabs: seq<Slab>, slabs': seq<Slab>)
    requires PlacedOk(sections, slabs) && |slabs'| == |slabs| && sections <= sections'
    requires forall k :: 0 <= k < |slabs| ==>
               slabs'[k] == slabs[k].(refEnd := slabs[k].refEnd + (sections' * SECTION - sections * SECTION))
    ensures PlacedOk(sections', slabs')
  {
    forall k | 0 <= k < |slabs'| ensures slabs'[k].refEnd == (sections' + k) * SECTION + slabs'[k].size {
      assert slabs[k].refEnd == (sections + k) * SECTION + slabs[k].size;
    }
  }
}
