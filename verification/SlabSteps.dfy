/** What each edit of the boundary tags does to the whole allocator. */
module SlabSteps {
  import opened Tiles
  import opened FreeLists
  import opened SlabSets

  ghost predicate SlabsOkTo(slabs: seq<Slab>, tags: seq<map<nat, Tag>>, tiles: seq<seq<Tile>>, n: nat) {
    n == 0 || (
      && n <= |slabs| && n <= |tags| && n <= |tiles|
      && SlabsOkTo(slabs, tags, tiles, n - 1) && Tiled(tiles[n - 1], slabs[n - 1].size)
      && TagsOk(tags[n - 1], tiles[n - 1]))
  }

  /** Every slab is tiled by its row of blocks and its tags say so. */
  ghost predicate SlabsOk(slabs: seq<Slab>, tags: seq<map<nat, Tag>>, tiles: seq<seq<Tile>>) {
    |slabs| == |tags| == |tiles| && SlabsOkTo(slabs, tags, tiles, |tiles|)
  }

  lemma {:induction false} SlabAtTo(slabs: seq<Slab>, tags: seq<map<nat, Tag>>, tiles: seq<seq<Tile>>, n: nat, j: nat)
    requires j < n && SlabsOkTo(slabs, tags, tiles, n)
    ensures j < |slabs| && j < |tags| && j < |tiles| && Tiled(tiles[j], slabs[j].size) && TagsOk(tags[j], tiles[j])
    decreases n
  {
    if j < n - 1 {
      SlabAtTo(slabs, tags, tiles, n - 1, j);
    }
  }

  lemma {:induction false} SlabAt(slabs: seq<Slab>, tags: seq<map<nat, Tag>>, tiles: seq<seq<Tile>>, j: nat)
    requires SlabsOk(slabs, tags, tiles) && j < |tiles|
    ensures Tiled(tiles[j], slabs[j].size) && TagsOk(tags[j], tiles[j])
  {
    SlabAtTo(slabs, tags, tiles, |tiles|, j);
  }

  lemma {:induction false} SlabsUpdateTo(slabs: seq<Slab>, tags: seq<map<nat, Tag>>, tiles: seq<seq<Tile>>, n: nat,
                                         j: nat, t: map<nat, Tag>, row: seq<Tile>)
    requires SlabsOkTo(slabs, tags, tiles, n) && j < |slabs| && j < |tags| && j < |tiles|
    requires Tiled(row, slabs[j].size) && TagsOk(t, row)
    ensures SlabsOkTo(slabs, tags[j := t], tiles[j := row], n)
  {
    if n > 0 {
      SlabsUpdateTo(slabs, tags, tiles, n - 1, j, t, row);
    }
  }

  lemma {:induction false} SlabsSplice(slabs: seq<Slab>, tags: seq<map<nat, Tag>>, tiles: seq<seq<Tile>>, j: nat,
                                       i: nat, k: nat, mid: seq<Tile>, t: map<nat, Tag>)
    requires SlabsOk(slabs, tags, tiles) && j < |tiles| && SameSpan(tiles[j], i, k, mid) && mid != []
    requires forall n :: 0 <= n < |mid| ==> mid[n].size >= HEAD && mid[n].size % 8 == 0
    requires TagsOk(t, Spliced(tiles[j], i, k, mid))
    ensures SlabsOk(slabs, tags[j := t], Edited(tiles, j, i, k, mid))
  {
    SlabAt(slabs, tags, tiles, j);
    TiledSplice(tiles[j], i, k, mid, slabs[j].size);
    SlabsUpdateTo(slabs, tags, tiles, |tiles|, j, t, Spliced(tiles[j], i, k, mid));
  }

  /** `tiles` becomes `tiles'`, which loses and gains these free blocks and these blocks in use. */
  ghost predicate Exchanged(lists: map<int, seq<Block>>, tiles: seq<seq<Tile>>, tiles': seq<seq<Tile>>,
                            hand: set<(Block, int)>, free: set<(Block, int)>, free': set<(Block, int)>,
                            used: set<(Block, int)>, used': set<(Block, int)>)
  {
    && ListsOk(lists, tiles', hand - free + free')
    && All(tiles', true) == All(tiles, true) - free + free'
    && All(tiles', false) == All(tiles, false) - used + used'
  }

  lemma {:induction false} EditSets(lists: map<int, seq<Block>>, tiles: seq<seq<Tile>>, hand: set<(Block, int)>, j: nat,
                                    i: nat, k: nat, mid: seq<Tile>)
    requires ListsOk(lists, tiles, hand)
    requires j < |tiles| && SameSpan(tiles[j], i, k, mid) && Gone(tiles, j, i, k, true) <= hand
    ensures Exchanged(lists, tiles, Edited(tiles, j, i, k, mid), hand, Gone(tiles, j, i, k, true),
                      Come(tiles, j, i, k, mid, true),
                      Gone(tiles, j, i, k, false), Come(tiles, j, i, k, mid, false))
  {
    EditAll(tiles, j, i, k, mid, true);
    EditAll(tiles, j, i, k, mid, false);
    EditLists(lists, tiles, Edited(tiles, j, i, k, mid), hand, Gone(tiles, j, i, k, true),
              Come(tiles, j, i, k, mid, true));
  }

  // The stretches and replacements the allocator uses have one block or two.

  lemma {:induction false} BetweenOne(j: nat, row: seq<Tile>, i: nat, free: bool)
    requires i < |row|
    ensures Between(j, row, i, i + 1, free) == if row[i].free == free then {Item(j, row, i)} else {}
  {
    assert Between(j, row, i, i, free) == {};
  }

  /** Two neighbours, the first at `b`. */
  ghost function Halves(b: Block, first: nat, rest: nat): set<(Block, int)> {
    {(b, first as int), (Block(b.slab, b.off + first + TAG), rest as int)}
  }

  lemma {:induction false} BetweenTwo(j: nat, row: seq<Tile>, i: nat)
    requires i + 1 < |row| && row[i].free && row[i + 1].free
    ensures Between(j, row, i, i + 2, true) == Halves(Item(j, row, i).0, row[i].size, row[i + 1].size)
    ensures Between(j, row, i, i + 2, false) == {}
  {
    BetweenOne(j, row, i, true);
    BetweenOne(j, row, i, false);
    assert Between(j, row, i, i + 2, true) == Between(j, row, i, i + 1, true) + {Item(j, row, i + 1)};
  }

  lemma {:induction false} ComeOne(tiles: seq<seq<Tile>>, j: nat, i: nat, k: nat, t: Tile, free: bool)
    requires j < |tiles| && i <= k <= |tiles[j]|
    ensures Come(tiles, j, i, k, [t], free)
         == if t.free == free then {(Block(j, At(tiles[j], i)), t.size as int)} else {}
  {
    AtSplicedLow(tiles[j], i, k, [t], i);
    BetweenOne(j, Spliced(tiles[j], i, k, [t]), i, free);
  }

  lemma {:induction false} ComeTwo(tiles: seq<seq<Tile>>, j: nat, i: nat, k: nat, t: Tile, u: Tile)
    requires j < |tiles| && i <= k <= |tiles[j]| && t.free && u.free
    ensures Come(tiles, j, i, k, [t, u], true) == Halves(Block(j, At(tiles[j], i)), t.size, u.size)
    ensures Come(tiles, j, i, k, [t, u], false) == {}
  {
    AtSplicedLow(tiles[j], i, k, [t, u], i);
    BetweenTwo(j, Spliced(tiles[j], i, k, [t, u]), i);
  }

  ghost function FlippedTiles(tiles: seq<seq<Tile>>, j: nat, i: nat): seq<seq<Tile>>
    requires j < |tiles| && i < |tiles[j]|
  {
    Edited(tiles, j, i, i + 1, [Tile(tiles[j][i].size, !tiles[j][i].free)])
  }

  ghost function CutTiles(tiles: seq<seq<Tile>>, j: nat, i: nat, first: nat, rest: nat): seq<seq<Tile>>
    requires j < |tiles| && i < |tiles[j]|
  {
    Edited(tiles, j, i, i + 1, [Tile(first, true), Tile(rest, true)])
  }

  ghost function MergedTiles(tiles: seq<seq<Tile>>, j: nat, i: nat): seq<seq<Tile>>
    requires j < |tiles| && i + 1 < |tiles[j]|
  {
    Edited(tiles, j, i, i + 2, [Tile(tiles[j][i].size + TAG + tiles[j][i + 1].size, true)])
  }

  /** Freeing a block brings it into the hand; allocating one takes it out. */
  lemma {:induction false} FlipSets(lists: map<int, seq<Block>>, tiles: seq<seq<Tile>>, hand: set<(Block, int)>, j: nat,
                                    i: nat)
    requires ListsOk(lists, tiles, hand)
    requires j < |tiles| && i < |tiles[j]| && SameSpan(tiles[j], i, i + 1, [Tile(tiles[j][i].size, !tiles[j][i].free)])
    requires tiles[j][i].free ==> Item(j, tiles[j], i) in hand
    ensures var x := Item(j, tiles[j], i);
            if tiles[j][i].free then Exchanged(lists, tiles, FlippedTiles(tiles, j, i), hand, {x}, {}, {}, {x})
            else Exchanged(lists, tiles, FlippedTiles(tiles, j, i), hand, {}, {x}, {x}, {})
  {
    var t := Tile(tiles[j][i].size, !tiles[j][i].free);
    BetweenOne(j, tiles[j], i, true);
    BetweenOne(j, tiles[j], i, false);
    ComeOne(tiles, j, i, i + 1, t, true);
    ComeOne(tiles, j, i, i + 1, t, false);
    EditSets(lists, tiles, hand, j, i, i + 1, [t]);
  }

  lemma {:induction false} CutSets(lists: map<int, seq<Block>>, tiles: seq<seq<Tile>>, hand: set<(Block, int)>, j: nat,
                                   i: nat, first: nat, rest: nat)
    requires ListsOk(lists, tiles, hand)
    requires j < |tiles| && i < |tiles[j]| && tiles[j][i].free
    requires SameSpan(tiles[j], i, i + 1, [Tile(first, true), Tile(rest, true)])
    requires Item(j, tiles[j], i) in hand
    ensures var x := Item(j, tiles[j], i);
            Exchanged(lists, tiles, CutTiles(tiles, j, i, first, rest), hand, {x}, Halves(x.0, first, rest), {}, {})
  {
    BetweenOne(j, tiles[j], i, true);
    BetweenOne(j, tiles[j], i, false);
    ComeTwo(tiles, j, i, i + 1, Tile(first, true), Tile(rest, true));
    EditSets(lists, tiles, hand, j, i, i + 1, [Tile(first, true), Tile(rest, true)]);
  }

  ghost function Only(b: Block, size: nat): set<(Block, int)> {
    {(b, size as int)}
  }

  lemma {:induction false} MergeSets(lists: map<int, seq<Block>>, tiles: seq<seq<Tile>>, hand: set<(Block, int)>,
                                     j: nat, i: nat)
    requires ListsOk(lists, tiles, hand)
    requires j < |tiles| && i + 1 < |tiles[j]| && tiles[j][i].free && tiles[j][i + 1].free
    requires SameSpan(tiles[j], i, i + 2, [Tile(tiles[j][i].size + TAG + tiles[j][i + 1].size, true)])
    requires Halves(Item(j, tiles[j], i).0, tiles[j][i].size, tiles[j][i + 1].size) <= hand
    ensures var b, first, second := Item(j, tiles[j], i).0, tiles[j][i].size, tiles[j][i + 1].size;
            Exchanged(lists, tiles, MergedTiles(tiles, j, i), hand, Halves(b, first, second),
                      Only(b, first + TAG + second), {}, {})
  {
    var t := Tile(tiles[j][i].size + TAG + tiles[j][i + 1].size, true);
    BetweenTwo(j, tiles[j], i);
    ComeOne(tiles, j, i, i + 2, t, true);
    ComeOne(tiles, j, i, i + 2, t, false);
    EditSets(lists, tiles, hand, j, i, i + 2, [t]);
  }

  // ---- Each edit keeps what the allocator keeps ----

  ghost predicate CoreOk(slabs: seq<Slab>, tags: seq<map<nat, Tag>>, tiles: seq<seq<Tile>>, lists: map<int, seq<Block>>,
                         hand: set<(Block, int)>, refs: map<Block, nat>, sections: nat)
  {
    SlabsOk(slabs, tags, tiles) && ListsOk(lists, tiles, hand) && RefsOk(tiles, refs, sections)
  }

  /** The tags next to a block can be read and name it. */
  ghost predicate Tagged(tags: seq<map<nat, Tag>>, b: Block, t: Tile) {
    && b.slab < |tags| && b.off >= TAG
    && b.off - TAG in tags[b.slab] && tags[b.slab][b.off - TAG].after == Sign(t)
    && b.off + t.size in tags[b.slab] && tags[b.slab][b.off + t.size].before == Sign(t)
  }

  lemma {:induction false} TaggedAt(slabs: seq<Slab>, tags: seq<map<nat, Tag>>, tiles: seq<seq<Tile>>, j: nat, i: nat)
    requires SlabsOk(slabs, tags, tiles) && j < |tiles| && i < |tiles[j]|
    ensures Tagged(tags, Item(j, tiles[j], i).0, tiles[j][i])
    ensures tiles[j][i].size >= HEAD && tiles[j][i].size % 8 == 0
  {
    SlabAt(slabs, tags, tiles, j);
    TagsAround(tags[j], tiles[j], i);
  }

  ghost function Flipped(tags: seq<map<nat, Tag>>, b: Block, t: Tile): seq<map<nat, Tag>>
    requires b.slab < |tags| && b.off >= TAG && b.off - TAG in tags[b.slab] && b.off + t.size in tags[b.slab]
  {
    tags[b.slab := Marked(tags[b.slab], b.off, t.size, !t.free)]
  }

  lemma {:induction false} FlipSlabs(slabs: seq<Slab>, tags: seq<map<nat, Tag>>, tiles: seq<seq<Tile>>, j: nat, i: nat)
    requires SlabsOk(slabs, tags, tiles) && j < |tiles| && i < |tiles[j]|
    requires Tagged(tags, Item(j, tiles[j], i).0, tiles[j][i])
    ensures SlabsOk(slabs, Flipped(tags, Item(j, tiles[j], i).0, tiles[j][i]), FlippedTiles(tiles, j, i))
    ensures SameSpan(tiles[j], i, i + 1, [Tile(tiles[j][i].size, !tiles[j][i].free)])
  {
    var row := tiles[j];
    SlabAt(slabs, tags, tiles, j);
    MarkOk(tags[j], row, i, !row[i].free);
    SlabsSplice(slabs, tags, tiles, j, i, i + 1, [Tile(row[i].size, !row[i].free)],
                Marked(tags[j], At(row, i), row[i].size, !row[i].free));
  }

  /** Block i of its slab starts at `b`. */
  ghost predicate Stands(tiles: seq<seq<Tile>>, b: Block, i: nat) {
    b.slab < |tiles| && i < |tiles[b.slab]| && At(tiles[b.slab], i) == b.off
  }

  lemma {:induction false} AllocateStep(slabs: seq<Slab>, tags: seq<map<nat, Tag>>, tiles: seq<seq<Tile>>,
                                        lists: map<int, seq<Block>>, hand: set<(Block, int)>, refs: map<Block, nat>,
                                        sections: nat, b: Block, i: nat)
    requires CoreOk(slabs, tags, tiles, lists, hand, refs, sections) && Stands(tiles, b, i) && tiles[b.slab][i].free
    requires (b, tiles[b.slab][i].size as int) in hand
    ensures Tagged(tags, b, tiles[b.slab][i])
    ensures var t := tiles[b.slab][i];
            && CoreOk(slabs, Flipped(tags, b, t), FlippedTiles(tiles, b.slab, i), lists, hand - Only(b, t.size), refs,
                      sections)
            && All(FlippedTiles(tiles, b.slab, i), false) == All(tiles, false) + Only(b, t.size)
  {
    var x := Item(b.slab, tiles[b.slab], i);
    assert x == (b, tiles[b.slab][i].size as int);
    TaggedAt(slabs, tags, tiles, b.slab, i);
    FlipSlabs(slabs, tags, tiles, b.slab, i);
    FlipSets(lists, tiles, hand, b.slab, i);
    FewerRefs(tiles, FlippedTiles(tiles, b.slab, i), refs, sections);
    DropNothing(hand - {x});
  }

  lemma {:induction false} FreeStep(slabs: seq<Slab>, tags: seq<map<nat, Tag>>, tiles: seq<seq<Tile>>,
                                    lists: map<int, seq<Block>>, hand: set<(Block, int)>, refs: map<Block, nat>,
                                    sections: nat, b: Block, i: nat)
    requires CoreOk(slabs, tags, tiles, lists, hand, refs, sections) && Stands(tiles, b, i) && !tiles[b.slab][i].free
    ensures Tagged(tags, b, tiles[b.slab][i])
    ensures var t := tiles[b.slab][i];
            && CoreOk(slabs, Flipped(tags, b, t), FlippedTiles(tiles, b.slab, i), lists, hand + Only(b, t.size),
                      refs[b := RefAt(sections, b)], sections)
            && All(FlippedTiles(tiles, b.slab, i), false) == All(tiles, false) - Only(b, t.size)
  {
    var x := Item(b.slab, tiles[b.slab], i);
    assert x == (b, tiles[b.slab][i].size as int);
    TaggedAt(slabs, tags, tiles, b.slab, i);
    FlipSlabs(slabs, tags, tiles, b.slab, i);
    FlipSets(lists, tiles, hand, b.slab, i);
    MoreRefs(tiles, FlippedTiles(tiles, b.slab, i), refs, sections, {}, {x}, b);
    DropNothing(hand);
    DropNothing(All(tiles, false) - {x});
  }

  lemma {:induction false} DropNothing<X>(s: set<X>)
    ensures s - {} == s && s + {} == s
  {
  }

  lemma {:induction false} FewerRefs(tiles: seq<seq<Tile>>, tiles': seq<seq<Tile>>, refs: map<Block, nat>,
                                     sections: nat)
    requires RefsOk(tiles, refs, sections) && All(tiles', true) <= All(tiles, true)
    ensures RefsOk(tiles', refs, sections)
  {
  }

  /** Only one block is new, and its ref has been recorded. */
  lemma {:induction false} MoreRefs(tiles: seq<seq<Tile>>, tiles': seq<seq<Tile>>, refs: map<Block, nat>, sections: nat,
                                    gone: set<(Block, int)>, come: set<(Block, int)>, b: Block)
    requires RefsOk(tiles, refs, sections) && All(tiles', true) == All(tiles, true) - gone + come
    requires forall x :: x in come ==> x.0 == b || (x.0 in refs && refs[x.0] == RefAt(sections, x.0))
    ensures RefsOk(tiles', refs[b := RefAt(sections, b)], sections)
  {
  }

  lemma {:induction false} KnownRefs(tiles: seq<seq<Tile>>, tiles': seq<seq<Tile>>, refs: map<Block, nat>,
                                     sections: nat, gone: set<(Block, int)>, come: set<(Block, int)>, x: (Block, int))
    requires RefsOk(tiles, refs, sections) && All(tiles', true) == All(tiles, true) - gone + come
    requires x in All(tiles, true) && forall y :: y in come ==> y.0 == x.0
    ensures RefsOk(tiles', refs, sections)
  {
  }

  ghost function Cut(tags: seq<map<nat, Tag>>, b: Block, first: nat, rest: nat): seq<map<nat, Tag>>
    requires Tagged(tags, b, Tile(first + TAG + rest, true))
  {
    tags[b.slab := Broken(tags[b.slab], b.off, first, rest)]
  }

  lemma {:induction false} CutSlabs(slabs: seq<Slab>, tags: seq<map<nat, Tag>>, tiles: seq<seq<Tile>>, j: nat, i: nat,
                                    first: nat, rest: nat)
    requires SlabsOk(slabs, tags, tiles) && j < |tiles| && i < |tiles[j]|
    requires tiles[j][i] == Tile(first + TAG + rest, true)
    requires first >= HEAD && rest >= HEAD && first % 8 == 0 && rest % 8 == 0
    requires Tagged(tags, Item(j, tiles[j], i).0, tiles[j][i])
    ensures SlabsOk(slabs, Cut(tags, Item(j, tiles[j], i).0, first, rest), CutTiles(tiles, j, i, first, rest))
    ensures SameSpan(tiles[j], i, i + 1, [Tile(first, true), Tile(rest, true)])
  {
    var row := tiles[j];
    SlabAt(slabs, tags, tiles, j);
    BreakOk(tags[j], row, i, first, rest);
    SlabsSplice(slabs, tags, tiles, j, i, i + 1, [Tile(first, true), Tile(rest, true)],
                Broken(tags[j], At(row, i), first, rest));
  }

  lemma {:induction false} CutStep(slabs: seq<Slab>, tags: seq<map<nat, Tag>>, tiles: seq<seq<Tile>>,
                                   lists: map<int, seq<Block>>, hand: set<(Block, int)>, refs: map<Block, nat>,
                                   sections: nat, b: Block, i: nat, first: nat, rest: nat)
    requires CoreOk(slabs, tags, tiles, lists, hand, refs, sections) && Stands(tiles, b, i)
    requires tiles[b.slab][i] == Tile(first + TAG + rest, true) && (b, tiles[b.slab][i].size as int) in hand
    requires first >= HEAD && rest >= HEAD && first % 8 == 0 && rest % 8 == 0
    requires Tagged(tags, b, tiles[b.slab][i])
    ensures var r := Block(b.slab, b.off + first + TAG);
            && b in refs && refs[b] + first + TAG == RefAt(sections, r)
            && CoreOk(slabs, Cut(tags, b, first, rest), CutTiles(tiles, b.slab, i, first, rest), lists,
                      hand - Only(b, first + TAG + rest) + Halves(b, first,
                                                                  rest), refs[r := RefAt(sections, r)], sections)
            && All(CutTiles(tiles, b.slab, i, first, rest), false) == All(tiles, false)
  {
    var x := Item(b.slab, tiles[b.slab], i);
    assert x == (b, (first + TAG + rest) as int);
    TileIn(tiles, b.slab, i);
    CutSlabs(slabs, tags, tiles, b.slab, i, first, rest);
    CutSets(lists, tiles, hand, b.slab, i, first, rest);
    MoreRefs(tiles, CutTiles(tiles, b.slab, i, first, rest), refs, sections, {x}, Halves(b, first, rest),
             Block(b.slab, b.off + first + TAG));
    DropNothing(All(tiles, false));
  }

  ghost function Merged(tags: seq<map<nat, Tag>>, b: Block, first: nat, second: nat): seq<map<nat, Tag>>
    requires b.slab < |tags| && b.off >= TAG && b.off - TAG in tags[b.slab]
    requires b.off + first + TAG + second in tags[b.slab]
  {
    tags[b.slab := Joined(tags[b.slab], b.off, first, second)]
  }

  lemma {:induction false} MergeSlabs(slabs: seq<Slab>, tags: seq<map<nat, Tag>>, tiles: seq<seq<Tile>>, j: nat, i: nat)
    requires SlabsOk(slabs, tags, tiles) && j < |tiles| && i + 1 < |tiles[j]| && tiles[j][i].free
    requires tiles[j][i + 1].free
    ensures At(tiles[j], i) >= TAG && At(tiles[j], i) - TAG in tags[j]
    ensures At(tiles[j], i) + tiles[j][i].size + TAG + tiles[j][i + 1].size in tags[j]
    ensures SlabsOk(slabs, Merged(tags, Item(j, tiles[j], i).0, tiles[j][i].size, tiles[j][i + 1].size),
                    MergedTiles(tiles, j, i))
    ensures SameSpan(tiles[j], i, i + 2, [Tile(tiles[j][i].size + TAG + tiles[j][i + 1].size, true)])
  {
    var row := tiles[j];
    SlabAt(slabs, tags, tiles, j);
    JoinOk(tags[j], row, i);
    SlabsSplice(slabs, tags, tiles, j, i, i + 2, [Tile(row[i].size + TAG + row[i + 1].size, true)],
                Joined(tags[j], At(row, i), row[i].size, row[i + 1].size));
  }

  lemma {:induction false} MergeStep(slabs: seq<Slab>, tags: seq<map<nat, Tag>>, tiles: seq<seq<Tile>>,
                                     lists: map<int, seq<Block>>, hand: set<(Block, int)>, refs: map<Block, nat>,
                                     sections: nat, b: Block, i: nat, first: nat, second: nat)
    requires CoreOk(slabs, tags, tiles, lists, hand, refs, sections) && Stands(tiles, b, i) && i + 1 < |tiles[b.slab]|
    requires tiles[b.slab][i] == Tile(first, true) && tiles[b.slab][i + 1] == Tile(second, true)
    requires Halves(b, first, second) <= hand
    ensures Tagged(tags, b, Tile(first, true)) && Tagged(tags, Block(b.slab, b.off + first + TAG), Tile(second, true))
    ensures CoreOk(slabs, Merged(tags, b, first, second), MergedTiles(tiles, b.slab, i), lists,
                   hand - Halves(b, first, second) + Only(b, first + TAG + second), refs, sections)
    ensures All(MergedTiles(tiles, b.slab, i), false) == All(tiles, false)
  {
    var x := Item(b.slab, tiles[b.slab], i);
    assert x == (b, first as int);
    TaggedAt(slabs, tags, tiles, b.slab, i);
    assert Item(b.slab, tiles[b.slab], i + 1).0 == Block(b.slab, b.off + first + TAG);
    TaggedAt(slabs, tags, tiles, b.slab, i + 1);
    TileIn(tiles, b.slab, i);
    MergeSlabs(slabs, tags, tiles, b.slab, i);
    MergeSets(lists, tiles, hand, b.slab, i);
    KnownRefs(tiles, MergedTiles(tiles, b.slab, i), refs, sections, Halves(b, first, second),
              Only(b, first + TAG + second), x);
    DropNothing(All(tiles, false));
  }

  // ---- Slabs that hold one free block ----

  ghost function Whole(slab: Slab): seq<Tile> {
    [Tile(if slab.size >= 2 * TAG then slab.size - 2 * TAG else 0, true)]
  }

  ghost function Wholes(slabs: seq<Slab>): seq<seq<Tile>> {
    if slabs == [] then [] else Wholes(slabs[..|slabs| - 1]) + [Whole(slabs[|slabs| - 1])]
  }

  lemma {:induction false} WholesAt(slabs: seq<Slab>, j: nat)
    requires j < |slabs|
    ensures |Wholes(slabs)| == |slabs| && Wholes(slabs)[j] == Whole(slabs[j])
    decreases |slabs|
  {
    var n: nat := |slabs| - 1;
    if n > 0 {
      WholesAt(slabs[..n], if j < n then j else 0);
    }
    assert Wholes(slabs[..n]) == [] || |Wholes(slabs[..n])| == n;
  }

  lemma {:induction false} WholesStep(slabs: seq<Slab>, j: nat)
    requires j < |slabs|
    ensures Wholes(slabs[..j + 1]) == Wholes(slabs[..j]) + [Whole(slabs[j])]
  {
    assert slabs[..j + 1][..j] == slabs[..j];
  }

  lemma {:induction false} WholesSize(slabs: seq<Slab>)
    ensures |Wholes(slabs)| == |slabs|
  {
    if slabs != [] {
      WholesAt(slabs, 0);
    }
  }

  lemma {:induction false} AllPrefix(tiles: seq<seq<Tile>>, t: seq<Tile>, free: bool, n: nat)
    requires n <= |tiles|
    ensures AllTo(tiles + [t], free, n) == AllTo(tiles, free, n)
  {
    if n > 0 {
      AllPrefix(tiles, t, free, n - 1);
    }
  }

  lemma {:induction false} AllAppendWhole(tiles: seq<seq<Tile>>, slab: Slab)
    requires slab.size >= 2 * TAG
    ensures All(tiles + [Whole(slab)], true) == All(tiles, true) + {(Block(|tiles|, TAG), slab.size - 2 * TAG)}
    ensures All(tiles + [Whole(slab)], false) == All(tiles, false)
  {
    AllPrefix(tiles, Whole(slab), true, |tiles|);
    AllPrefix(tiles, Whole(slab), false, |tiles|);
    BetweenOne(|tiles|, Whole(slab), 0, true);
    BetweenOne(|tiles|, Whole(slab), 0, false);
  }

  /** With nothing in use, every slab is back to the single block it started as. */
  lemma {:induction false} AllReturned(slabs: seq<Slab>, tags: seq<map<nat, Tag>>, tiles: seq<seq<Tile>>)
    requires SlabsOk(slabs, tags, tiles) && All(tiles, false) == {}
    requires Quiet(tiles)
    ensures tiles == Wholes(slabs)
  {
    WholesSize(slabs);
    forall j | 0 <= j < |tiles| ensures tiles[j] == Wholes(slabs)[j] {
      forall n | 0 <= n < |tiles[j]| ensures tiles[j][n].free {
        TileIn(tiles, j, n);
      }
      SlabAt(slabs, tags, tiles, j);
      QuietAt(tiles, j);
      AllFree(tiles[j], slabs[j].size);
      WholesAt(slabs, j);
    }
  }

  /** Conversely, whole slabs hold nothing in use and no free neighbours. */
  lemma {:induction false} WholesFree(slabs: seq<Slab>)
    requires forall j :: 0 <= j < |slabs| ==> slabs[j].size >= 2 * TAG
    ensures All(Wholes(slabs), false) == {} && Quiet(Wholes(slabs))
  {
    if slabs != [] {
      var n: nat := |slabs| - 1;
      WholesFree(slabs[..n]);
      WholesSize(slabs[..n]);
      AllAppendWhole(Wholes(slabs[..n]), slabs[n]);
      QuietGrow(Wholes(slabs[..n]), slabs[n]);
    }
  }

  lemma {:induction false} WholeTags(tags: map<nat, Tag>, size: nat)
    ensures TagsOk(tags[0 := Tag(0, size)][size + TAG := Tag(size, 0)], [Tile(size, true)])
  {
    AtOne(Tile(size, true));
  }

  // ---- Live blocks do not overlap ----

  lemma {:induction false} BlockInside(slabs: seq<Slab>, tags: seq<map<nat, Tag>>, tiles: seq<seq<Tile>>,
                                       x: (Block, int), free: bool)
    requires SlabsOk(slabs, tags, tiles) && x in All(tiles, free)
    ensures x.0.slab < |slabs| && TAG <= x.0.off && HEAD <= x.1 && x.0.off + x.1 + TAG <= slabs[x.0.slab].size
    ensures x.0.off % 8 == 0
  {
    var n := FindTile(tiles, x, free);
    var row := tiles[x.0.slab];
    SlabAt(slabs, tags, tiles, x.0.slab);
    AtMono(row, n, |row|);
    AtLow(row, n);
    AtAligned(row, n);
  }

  lemma {:induction false} AtAligned(tiles: seq<Tile>, i: nat)
    requires i <= |tiles| && forall n :: 0 <= n < |tiles| ==> tiles[n].size % 8 == 0
    ensures At(tiles, i) % 8 == 0
  {
    if i > 0 {
      AtAligned(tiles, i - 1);
    }
  }

  lemma {:induction false} BlocksApart(slabs: seq<Slab>, tags: seq<map<nat, Tag>>, tiles: seq<seq<Tile>>,
                                       x: (Block, int), y: (Block, int), free: bool, free': bool)
    requires SlabsOk(slabs, tags, tiles) && x in All(tiles, free) && y in All(tiles, free') && x.0 != y.0
    ensures x.0.slab != y.0.slab || x.0.off + x.1 + TAG <= y.0.off || y.0.off + y.1 + TAG <= x.0.off
  {
    var n := FindTile(tiles, x, free);
    var m := FindTile(tiles, y, free');
    if x.0.slab == y.0.slab {
      if n < m {
        AtMono(tiles[x.0.slab], n, m);
      } else if m < n {
        AtMono(tiles[x.0.slab], m, n);
      }
    }
  }

  // ---- Where free neighbours can appear ----

  ghost predicate NeighboursTo(tiles: seq<seq<Tile>>, j: nat, lo: nat, hi: nat, n: nat)
    requires n <= |tiles|
  {
    n == 0 || (
      && NeighboursTo(tiles, j, lo, hi, n - 1)
      && PairsWithin(tiles[n - 1], if n - 1 == j then lo else 0, if n - 1 == j then hi else 0))
  }

  /** Free blocks are neighbours at positions lo..hi of slab j at most. */
  ghost predicate Neighbours(tiles: seq<seq<Tile>>, j: nat, lo: nat, hi: nat) {
    NeighboursTo(tiles, j, lo, hi, |tiles|)
  }

  /** No two free blocks are neighbours. */
  ghost predicate Quiet(tiles: seq<seq<Tile>>) {
    Neighbours(tiles, 0, 0, 0)
  }

  lemma {:induction false} PairsAtTo(tiles: seq<seq<Tile>>, j: nat, lo: nat, hi: nat, n: nat, k: nat)
    requires k < n <= |tiles| && NeighboursTo(tiles, j, lo, hi, n)
    ensures PairsWithin(tiles[k], if k == j then lo else 0, if k == j then hi else 0)
    decreases n
  {
    if k < n - 1 {
      PairsAtTo(tiles, j, lo, hi, n - 1, k);
    }
  }

  /** The other rows stay as they are, and row j is as stated. */
  lemma {:induction false} NeighboursUpdate(tiles: seq<seq<Tile>>, j: nat, lo: nat, hi: nat, j': nat, row: seq<Tile>,
                                            lo': nat, hi': nat, n: nat)
    requires n <= |tiles| && j' < |tiles| && NeighboursTo(tiles, j, lo, hi, n) && PairsWithin(row, lo', hi')
    requires (j == j' || lo >= hi)
    ensures NeighboursTo(tiles[j' := row], j', lo', hi', n)
  {
    if n > 0 {
      NeighboursUpdate(tiles, j, lo, hi, j', row, lo', hi', n - 1);
    }
  }

  lemma {:induction false} NoneAnywhere(tiles: seq<seq<Tile>>, j: nat, lo: nat, hi: nat, j': nat, lo': nat, hi': nat,
                                        n: nat)
    requires n <= |tiles| && NeighboursTo(tiles, j, lo, hi, n) && lo >= hi
    ensures NeighboursTo(tiles, j', lo', hi', n)
  {
    if n > 0 {
      NoneAnywhere(tiles, j, lo, hi, j', lo', hi', n - 1);
    }
  }

  lemma {:induction false} QuietAt(tiles: seq<seq<Tile>>, k: nat)
    requires Quiet(tiles) && k < |tiles|
    ensures NoFreeNeighbours(tiles[k])
  {
    PairsAtTo(tiles, 0, 0, 0, |tiles|, k);
  }

  lemma {:induction false} QuietAllocate(tiles: seq<seq<Tile>>, j: nat, i: nat)
    requires j < |tiles| && i < |tiles[j]| && tiles[j][i].free && Neighbours(tiles, j, i, i + 1)
    ensures Quiet(FlippedTiles(tiles, j, i))
  {
    PairsAtTo(tiles, j, i, i + 1, |tiles|, j);
    PairsMark(tiles[j], i, Tile(tiles[j][i].size, false));
    NeighboursUpdate(tiles, j, i, i + 1, j, FlippedTiles(tiles, j, i)[j], 0, 0, |tiles|);
    NoneAnywhere(FlippedTiles(tiles, j, i), j, 0, 0, 0, 0, 0, |tiles|);
  }

  lemma {:induction false} QuietFree(tiles: seq<seq<Tile>>, j: nat, i: nat)
    requires j < |tiles| && i < |tiles[j]| && !tiles[j][i].free && Quiet(tiles)
    ensures Neighbours(FlippedTiles(tiles, j, i), j, if i > 0 then i - 1 else 0, i + 1)
  {
    QuietAt(tiles, j);
    PairsMark(tiles[j], i, Tile(tiles[j][i].size, true));
    NeighboursUpdate(tiles, 0, 0, 0, j, FlippedTiles(tiles, j, i)[j], if i > 0 then i - 1 else 0, i + 1, |tiles|);
  }

  lemma {:induction false} QuietCut(tiles: seq<seq<Tile>>, j: nat, i: nat, first: nat, rest: nat)
    requires j < |tiles| && i < |tiles[j]| && tiles[j][i].free && Quiet(tiles)
    ensures Neighbours(CutTiles(tiles, j, i, first, rest), j, i, i + 1)
  {
    QuietAt(tiles, j);
    PairsBreak(tiles[j], i, Tile(first, true), Tile(rest, true));
    NeighboursUpdate(tiles, 0, 0, 0, j, CutTiles(tiles, j, i, first, rest)[j], i, i + 1, |tiles|);
  }

  lemma {:induction false} QuietMerge(tiles: seq<seq<Tile>>, j: nat, i: nat, lo: nat, hi: nat)
    requires j < |tiles| && i + 1 < |tiles[j]| && tiles[j][i].free && tiles[j][i + 1].free
    requires Neighbours(tiles, j, lo, hi) && lo <= i && i + 1 <= hi <= i + 2
    ensures Neighbours(MergedTiles(tiles, j, i), j, lo, hi - 1)
  {
    PairsAtTo(tiles, j, lo, hi, |tiles|, j);
    PairsJoin(tiles[j], i, Tile(tiles[j][i].size + TAG + tiles[j][i + 1].size, true), lo, hi);
    NeighboursUpdate(tiles, j, lo, hi, j, MergedTiles(tiles, j, i)[j], lo, hi - 1, |tiles|);
  }

  /** A pair that is ruled out narrows where free neighbours can be. */
  lemma {:induction false} Narrow(tiles: seq<seq<Tile>>, j: nat, lo: nat, hi: nat, lo': nat, hi': nat)
    requires j < |tiles| && Neighbours(tiles, j, lo, hi)
    requires forall n: nat :: lo <= n < hi && Pair(tiles[j], n) ==> lo' <= n < hi'
    ensures Neighbours(tiles, j, lo', hi')
    ensures lo' >= hi' ==> Quiet(tiles)
  {
    PairsAtTo(tiles, j, lo, hi, |tiles|, j);
    assert tiles[j := tiles[j]] == tiles;
    NeighboursUpdate(tiles, j, lo, hi, j, tiles[j], lo', hi', |tiles|);
    if lo' >= hi' {
      NoneAnywhere(tiles, j, lo', hi', 0, 0, 0, |tiles|);
    }
  }

  lemma {:induction false} QuietAny(tiles: seq<seq<Tile>>, j: nat, lo: nat, hi: nat)
    requires Quiet(tiles)
    ensures Neighbours(tiles, j, lo, hi)
  {
    NoneAnywhere(tiles, 0, 0, 0, j, lo, hi, |tiles|);
  }

  lemma {:induction false} QuietPrefix(tiles: seq<seq<Tile>>, row: seq<Tile>, n: nat)
    requires n <= |tiles| && NeighboursTo(tiles, 0, 0, 0, n)
    ensures NeighboursTo(tiles + [row], 0, 0, 0, n)
  {
    if n > 0 {
      QuietPrefix(tiles, row, n - 1);
    }
  }

  lemma {:induction false} QuietGrow(tiles: seq<seq<Tile>>, slab: Slab)
    requires Quiet(tiles)
    ensures Quiet(tiles + [Whole(slab)])
  {
    QuietPrefix(tiles, Whole(slab), |tiles|);
  }

  // ---- Where the blocks are after an edit ----

  lemma {:induction false} FlippedStands(tiles: seq<seq<Tile>>, b: Block, i: nat)
    requires Stands(tiles, b, i)
    ensures Stands(FlippedTiles(tiles, b.slab, i), b, i)
    ensures FlippedTiles(tiles, b.slab, i)[b.slab][i] == Tile(tiles[b.slab][i].size, !tiles[b.slab][i].free)
    ensures |FlippedTiles(tiles, b.slab, i)[b.slab]| == |tiles[b.slab]|
    ensures i + 1 < |tiles[b.slab]| ==> FlippedTiles(tiles, b.slab, i)[b.slab][i + 1] == tiles[b.slab][i + 1]
    ensures i > 0 ==> FlippedTiles(tiles, b.slab, i)[b.slab][i - 1] == tiles[b.slab][i - 1]
  {
    AtSplicedLow(tiles[b.slab], i, i + 1, [Tile(tiles[b.slab][i].size, !tiles[b.slab][i].free)], i);
  }

  lemma {:induction false} CutStands(tiles: seq<seq<Tile>>, b: Block, i: nat, first: nat, rest: nat)
    requires Stands(tiles, b, i)
    ensures var tiles' := CutTiles(tiles, b.slab, i, first, rest);
            && Stands(tiles', b, i) && tiles'[b.slab][i] == Tile(first, true)
            && Stands(tiles', Block(b.slab, b.off + first + TAG), i + 1) && tiles'[b.slab][i + 1] == Tile(rest, true)
  {
    AtSplicedLow(tiles[b.slab], i, i + 1, [Tile(first, true), Tile(rest, true)], i);
  }

  lemma {:induction false} MergedStands(tiles: seq<seq<Tile>>, b: Block, i: nat)
    requires Stands(tiles, b, i) && i + 1 < |tiles[b.slab]|
    ensures var tiles', row := MergedTiles(tiles, b.slab, i), tiles[b.slab];
            && Stands(tiles', b, i) && tiles'[b.slab][i] == Tile(row[i].size + TAG + row[i + 1].size, true)
            && |tiles'[b.slab]| == |row| - 1
            && (i + 2 < |row| ==> tiles'[b.slab][i + 1] == row[i + 2])
  {
    AtSplicedLow(tiles[b.slab], i, i + 2, [Tile(tiles[b.slab][i].size + TAG + tiles[b.slab][i + 1].size, true)], i);
  }

  // ---- A slab more ----

  lemma {:induction false} SlabsPrefix(slabs: seq<Slab>, tags: seq<map<nat, Tag>>, tiles: seq<seq<Tile>>, slab: Slab,
                                       t: map<nat, Tag>, row: seq<Tile>, n: nat)
    requires SlabsOkTo(slabs, tags, tiles, n) && n <= |slabs| == |tags| == |tiles|
    ensures SlabsOkTo(slabs + [slab], tags + [t], tiles + [row], n)
  {
    if n > 0 {
      SlabsPrefix(slabs, tags, tiles, slab, t, row, n - 1);
    }
  }

  lemma {:induction false} GrowStep(slabs: seq<Slab>, tags: seq<map<nat, Tag>>, tiles: seq<seq<Tile>>,
                                    lists: map<int, seq<Block>>, hand: set<(Block, int)>, refs: map<Block, nat>,
                                    sections: nat, slab: Slab, t: map<nat, Tag>)
    requires CoreOk(slabs, tags, tiles, lists, hand, refs, sections)
    requires slab.size >= 2 * TAG + HEAD && slab.size % 8 == 0 && TagsOk(t, Whole(slab))
    ensures var b := Block(|tiles|, TAG);
            && CoreOk(slabs + [slab], tags + [t], tiles + [Whole(slab)], lists, hand + Only(b, slab.size - 2 * TAG),
                      refs[b := RefAt(sections, b)], sections)
            && Stands(tiles + [Whole(slab)], b, 0)
            && All(tiles + [Whole(slab)], false) == All(tiles, false)
  {
    var b := Block(|tiles|, TAG);
    var tiles' := tiles + [Whole(slab)];
    AtOne(Whole(slab)[0]);
    SlabsPrefix(slabs, tags, tiles, slab, t, Whole(slab), |tiles|);
    AllAppendWhole(tiles, slab);
    NewSlabEntry(tiles, slab.size - 2 * TAG);
    EditLists(lists, tiles, tiles', hand, {}, Only(b, slab.size - 2 * TAG));
    DropNothing(hand);
    MoreRefs(tiles, tiles', refs, sections, {}, Only(b, slab.size - 2 * TAG), b);
  }

  lemma {:induction false} NewSlabEntry(tiles: seq<seq<Tile>>, size: nat)
    ensures (All(tiles, true) - {}) !! Only(Block(|tiles|, TAG), size)
  {
    var x := (Block(|tiles|, TAG), size as int);
    if x in All(tiles, true) {
      var n := FindTile(tiles, x, true);
    }
  }

  // ---- The neighbours of a block ----

  lemma {:induction false} TagsNear(slabs: seq<Slab>, tags: seq<map<nat, Tag>>, tiles: seq<seq<Tile>>, b: Block, i: nat)
    requires SlabsOk(slabs, tags, tiles) && Stands(tiles, b, i)
    ensures b.off >= TAG && b.off - TAG in tags[b.slab] && tags[b.slab][b.off - TAG] == TagAt(tiles[b.slab], i)
    ensures b.off + tiles[b.slab][i].size in tags[b.slab]
    ensures tags[b.slab][b.off + tiles[b.slab][i].size] == TagAt(tiles[b.slab], i + 1)
    ensures i + 1 < |tiles[b.slab]| ==> Stands(tiles, Block(b.slab, b.off + tiles[b.slab][i].size + TAG), i + 1)
    ensures i > 0 ==> b.off >= tiles[b.slab][i - 1].size + 2 * TAG
    ensures i > 0 ==> Stands(tiles, Block(b.slab, b.off - TAG - tiles[b.slab][i - 1].size), i - 1)
    ensures tiles[b.slab][i].size >= HEAD && (i > 0 ==> tiles[b.slab][i - 1].size >= HEAD)
    ensures i + 1 < |tiles[b.slab]| ==> tiles[b.slab][i + 1].size >= HEAD
  {
    SlabAt(slabs, tags, tiles, b.slab);
    TagsAround(tags[b.slab], tiles[b.slab], i);
    if i > 0 {
      AtLow(tiles[b.slab], i - 1);
    }
  }

  lemma {:induction false} HandMerged(hand: set<(Block, int)>, b: Block, next: Block, first: nat, second: nat,
                                      size: nat)
    requires hand == Only(b, first) + Only(next, second) || hand == Only(next, second) + Only(b, first)
    requires next == Block(b.slab, b.off + first + TAG)
    ensures Halves(b, first, second) <= hand
    ensures hand - Halves(b, first, second) + Only(b, size) == Only(b, size)
  {
  }

  lemma {:induction false} HandCut(b: Block, size: nat, first: nat, rest: nat)
    ensures Only(b, size) - Only(b, size) + Halves(b, first, rest) - Only(Block(b.slab, b.off + first + TAG), rest)
         == Only(b, first)
  {
  }

  /** One slab more is turned into one listed block. */
  lemma {:induction false} RebuildStep(slabs: seq<Slab>, tags: seq<map<nat, Tag>>, lists: map<int, seq<Block>>,
                                       refs: map<Block, nat>, sections: nat, j: nat, t: map<nat, Tag>)
    requires j < |slabs| == |tags| && slabs[j].size >= 2 * TAG + HEAD && slabs[j].size % 8 == 0
    requires TagsOk(t, Whole(slabs[j]))
    requires CoreOk(slabs[..j], tags[..j], Wholes(slabs[..j]), lists, {}, refs, sections)
    ensures var b := Block(j, TAG);
            && !Listed(lists, b)
            && CoreOk(slabs[..j + 1], tags[j := t][..j + 1], Wholes(slabs[..j + 1]),
                      Pushed(lists, slabs[j].size - 2 * TAG, b), {},
                      refs[b := RefAt(sections, b)], sections)
  {
    var b, rows, size := Block(j, TAG), Wholes(slabs[..j]), slabs[j].size - 2 * TAG;
    WholesSize(slabs[..j]);
    WholesStep(slabs, j);
    GrowStep(slabs[..j], tags[..j], rows, lists, {}, refs, sections, slabs[j], t);
    assert tags[j := t][..j + 1] == tags[..j] + [t] && slabs[..j + 1] == slabs[..j] + [slabs[j]];
    DropNothing(Only(b, size));
    assert {} + Only(b, size) == Only(b, size);
    InHand(lists, rows + [Whole(slabs[j])], Only(b, size), (b, size));
    PushStep(lists, rows + [Whole(slabs[j])], Only(b, size), (b, size));
    assert Only(b, size) - {(b, size)} == {};
  }
}
