/** Which free block answers a request: what find, find_larger and grow_slab come to. */
module SlabChoice {
  import opened Options
  import opened Tiles
  import opened FreeLists
  import opened SlabSets

  /** Room for the request and for a second block behind it. */
  function Needed(size: nat): nat {
    size + TAG + HEAD
  }

  /** What is left of a block of `all` bytes when it was cut to `size`, if that leaves a second block. */
  function Carved(all: int, size: nat): int {
    if all < Needed(size) then all else size
  }

  ghost predicate NoneFrom(lists: map<int, seq<Block>>, needed: int) {
    forall s :: s in lists ==> s < needed
  }

  /** The smallest size listed that is not below `needed`. */
  ghost predicate Smallest(lists: map<int, seq<Block>>, needed: int, m: int) {
    m in lists && m >= needed && forall s :: s in lists && s >= needed ==> m <= s
  }

  /** The block `b` of a slab that has just been added. */
  ghost predicate Added(slabs: seq<Slab>, slabs': seq<Slab>, b: Block, all: int) {
    && |slabs'| == |slabs| + 1 && slabs'[..|slabs|] == slabs
    && b == Block(|slabs|, TAG) && all == slabs'[|slabs|].size - 2 * TAG
  }

  /** The first block of the smallest list with room to cut; a new slab only when there is no such list. */
  ghost predicate Taken(lists: map<int, seq<Block>>, size: nat, slabs: seq<Slab>, slabs': seq<Slab>, b: Block, all: int)
  {
    if NoneFrom(lists, Needed(size)) then Added(slabs, slabs', b, all)
    else slabs' == slabs && Smallest(lists, Needed(size), all) && |lists[all]| > 0 && b == lists[all][0]
  }

  /** The first block of exactly the size, uncut; otherwise the block taken, cut to the size. */
  ghost predicate Chosen(lists: map<int, seq<Block>>, size: nat, slabs: seq<Slab>, slabs': seq<Slab>, b: Block, n: int)
  {
    if size in lists then slabs' == slabs && n == size && |lists[size]| > 0 && b == lists[size][0]
    else exists all :: Taken(lists, size, slabs, slabs', b, all) && n == Carved(all, size)
  }

  /**
   * The same choice seen in the slabs themselves: a free block of exactly the size, else the smallest free block with
   * room to cut, and a new slab only when no free block is of either kind. A refused request leaves the slabs alone.
   */
  ghost predicate BestFit(tiles: seq<seq<Tile>>, size: nat, slabs: seq<Slab>, slabs': seq<Slab>, block: Option<Block>,
                          n: int)
  {
    match block
    case None => slabs' == slabs
    case Some(b) =>
      var free := All(tiles, true);
      if exists x :: x in free && x.1 == size then slabs' == slabs && n == size && (b, size as int) in free
      else if exists x :: x in free && x.1 >= Needed(size) then
        && slabs' == slabs && n == size
        && exists y :: y in free && y.0 == b && y.1 >= Needed(size)
                       && forall x :: x in free && x.1 >= Needed(size) ==> y.1 <= x.1
      else exists all :: Added(slabs, slabs', b, all) && n == Carved(all, size)
  }

  /** Blocks are listed under their sizes, so the size of a list is the size of a free block. */
  lemma {:induction false} SizesListed(lists: map<int, seq<Block>>, tiles: seq<seq<Tile>>)
    requires ListsOk(lists, tiles, {}) && forall s :: s in lists ==> |lists[s]| > 0
    ensures forall x :: x in All(tiles, true) ==> x.1 in lists
    ensures forall s :: s in lists ==> (lists[s][0], s) in All(tiles, true)
  {
    forall x | x in All(tiles, true) ensures x.1 in lists {
      assert InLists(lists, x);
    }
    forall s | s in lists ensures (lists[s][0], s) in All(tiles, true) {
      assert InLists(lists, (lists[s][0], s));
    }
  }

  lemma {:induction false} ChosenFits(lists: map<int, seq<Block>>, tiles: seq<seq<Tile>>, size: nat, slabs: seq<Slab>,
                                      slabs': seq<Slab>, b: Block, n: int)
    requires ListsOk(lists, tiles, {}) && forall s :: s in lists ==> |lists[s]| > 0
    requires Chosen(lists, size, slabs, slabs', b, n)
    ensures BestFit(tiles, size, slabs, slabs', Some(b), n)
  {
    SizesListed(lists, tiles);
    var free := All(tiles, true);
    if size in lists {
      assert (lists[size][0], size as int) in free;
    } else {
      var all :| Taken(lists, size, slabs, slabs', b, all) && n == Carved(all, size);
      if !NoneFrom(lists, Needed(size)) {
        assert (lists[all][0], all) in free;
      }
    }
  }
}
