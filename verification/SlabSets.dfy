/** The blocks of all slabs as sets, and how each edit of one slab changes them. */
module SlabSets {
  import opened Tiles
  import opened FreeLists

  /** Bytes per section of the ref space. */
  const SECTION: nat := 0x400_0000

  datatype Slab = Slab(refEnd: nat, size: nat, addr: nat)

  /** Block n of slab j, with its size. */
  ghost function Item(j: nat, row: seq<Tile>, n: nat): (Block, int)
    requires n < |row|
  {
    (Block(j, At(row, n)), row[n].size)
  }

  /** The blocks i..k of slab j that are free, or in use. */
  ghost function Between(j: nat, row: seq<Tile>, i: nat, k: nat, free: bool): set<(Block, int)>
    requires i <= k <= |row|
    decreases k - i
  {
    if i == k then {}
    else Between(j, row, i, k - 1, free) + (if row[k - 1].free == free then {Item(j, row, k - 1)} else {})
  }

  ghost function AllTo(tiles: seq<seq<Tile>>, free: bool, n: nat): set<(Block, int)>
    requires n <= |tiles|
  {
    if n == 0 then {} else AllTo(tiles, free, n - 1) + Between(n - 1, tiles[n - 1], 0, |tiles[n - 1]|, free)
  }

  /** All blocks that are free, or in use. */
  ghost function All(tiles: seq<seq<Tile>>, free: bool): set<(Block, int)> {
    AllTo(tiles, free, |tiles|)
  }

  lemma {:induction false} BetweenIn(j: nat, row: seq<Tile>, i: nat, k: nat, n: nat)
    requires i <= n < k <= |row|
    ensures Item(j, row, n) in Between(j, row, i, k, row[n].free)
    decreases k
  {
    if n < k - 1 {
      BetweenIn(j, row, i, k - 1, n);
    }
  }

  lemma {:induction false} InBetween(j: nat, row: seq<Tile>, i: nat, k: nat, free: bool, x: (Block, int))
    returns (n: nat)
    requires i <= k <= |row| && x in Between(j, row, i, k, free)
    ensures i <= n < k && row[n].free == free && x == Item(j, row, n)
    decreases k
  {
    if x in Between(j, row, i, k - 1, free) {
      n := InBetween(j, row, i, k - 1, free, x);
    } else {
      n := k - 1;
    }
  }

  lemma {:induction false} TileInTo(tiles: seq<seq<Tile>>, j: nat, n: nat, m: nat)
    requires j < m <= |tiles| && n < |tiles[j]|
    ensures Item(j, tiles[j], n) in AllTo(tiles, tiles[j][n].free, m)
    decreases m
  {
    if j < m - 1 {
      TileInTo(tiles, j, n, m - 1);
    } else {
      BetweenIn(j, tiles[j], 0, |tiles[j]|, n);
    }
  }

  lemma {:induction false} TileIn(tiles: seq<seq<Tile>>, j: nat, n: nat)
    requires j < |tiles| && n < |tiles[j]|
    ensures Item(j, tiles[j], n) in All(tiles, tiles[j][n].free)
  {
    TileInTo(tiles, j, n, |tiles|);
  }

  lemma {:induction false} FindTileTo(tiles: seq<seq<Tile>>, x: (Block, int), free: bool, m: nat) returns (n: nat)
    requires m <= |tiles| && x in AllTo(tiles, free, m)
    ensures x.0.slab < m && n < |tiles[x.0.slab]| && x == Item(x.0.slab, tiles[x.0.slab], n)
    ensures tiles[x.0.slab][n].free == free
  {
    if x in AllTo(tiles, free, m - 1) {
      n := FindTileTo(tiles, x, free, m - 1);
    } else {
      n := InBetween(m - 1, tiles[m - 1], 0, |tiles[m - 1]|, free, x);
    }
  }

  lemma {:induction false} FindTile(tiles: seq<seq<Tile>>, x: (Block, int), free: bool) returns (n: nat)
    requires x in All(tiles, free)
    ensures x.0.slab < |tiles| && n < |tiles[x.0.slab]| && tiles[x.0.slab][n].free == free
    ensures x == Item(x.0.slab, tiles[x.0.slab], n)
  {
    n := FindTileTo(tiles, x, free, |tiles|);
  }

  /** A block has one size, and is either free or in use. */
  lemma {:induction false} OneSize(tiles: seq<seq<Tile>>, x: (Block, int), y: (Block, int), free: bool, free': bool)
    requires x in All(tiles, free) && y in All(tiles, free') && x.0 == y.0
    ensures x == y && free == free'
  {
    var n := FindTile(tiles, x, free);
    var m := FindTile(tiles, y, free');
    AtUnique(tiles[x.0.slab], n, m);
  }

  // ---- One stretch of one slab replaced ----

  ghost function Edited(tiles: seq<seq<Tile>>, j: nat, i: nat, k: nat, mid: seq<Tile>): seq<seq<Tile>>
    requires j < |tiles| && i <= k <= |tiles[j]|
  {
    tiles[j := Spliced(tiles[j], i, k, mid)]
  }

  ghost function Gone(tiles: seq<seq<Tile>>, j: nat, i: nat, k: nat, free: bool): set<(Block, int)>
    requires j < |tiles| && i <= k <= |tiles[j]|
  {
    Between(j, tiles[j], i, k, free)
  }

  ghost function Come(tiles: seq<seq<Tile>>, j: nat, i: nat, k: nat, mid: seq<Tile>, free: bool): set<(Block, int)>
    requires j < |tiles| && i <= k <= |tiles[j]|
  {
    Between(j, Spliced(tiles[j], i, k, mid), i, i + |mid|, free)
  }

  lemma {:induction false} NotGone(tiles: seq<seq<Tile>>, j: nat, i: nat, k: nat, free: bool, x: (Block, int), n: nat)
    requires j < |tiles| && i <= k <= |tiles[j]| && x.0.slab < |tiles| && n < |tiles[x.0.slab]|
    requires x == Item(x.0.slab, tiles[x.0.slab], n) && (x.0.slab != j || n < i || n >= k)
    ensures x !in Gone(tiles, j, i, k, free)
  {
    if x in Gone(tiles, j, i, k, free) {
      var m := InBetween(j, tiles[j], i, k, free, x);
      AtUnique(tiles[j], n, m);
    }
  }

  /** Where block n of the old row is in the new one. */
  lemma {:induction false} ItemMoved(j: nat, row: seq<Tile>, i: nat, k: nat, mid: seq<Tile>, n: nat) returns (n': nat)
    requires SameSpan(row, i, k, mid) && n < |row| && (n < i || n >= k)
    ensures n' < |Spliced(row, i, k, mid)| && (n' < i || n' >= i + |mid|)
    ensures Spliced(row, i, k, mid)[n'] == row[n] && Item(j, Spliced(row, i, k, mid), n') == Item(j, row, n)
  {
    if n < i {
      n' := n;
      AtSplicedLow(row, i, k, mid, n);
    } else {
      n' := i + |mid| + n - k;
      AtSplicedHigh(row, i, k, mid, n - k);
    }
  }

  /** Where block n of the new row was in the old one. */
  lemma {:induction false} ItemBefore(j: nat, row: seq<Tile>, i: nat, k: nat, mid: seq<Tile>, n: nat) returns (n': nat)
    requires SameSpan(row, i, k, mid) && n < |Spliced(row, i, k, mid)| && (n < i || n >= i + |mid|)
    ensures n' < |row| && (n' < i || n' >= k)
    ensures Spliced(row, i, k, mid)[n] == row[n'] && Item(j, Spliced(row, i, k, mid), n) == Item(j, row, n')
  {
    if n < i {
      n' := n;
      AtSplicedLow(row, i, k, mid, n);
    } else {
      n' := n - i - |mid| + k;
      AtSplicedHigh(row, i, k, mid, n' - k);
    }
  }

  lemma {:induction false} NewItem(tiles: seq<seq<Tile>>, j: nat, i: nat, k: nat, mid: seq<Tile>, free: bool,
                                   x: (Block, int))
    requires j < |tiles| && SameSpan(tiles[j], i, k, mid) && x in All(Edited(tiles, j, i, k, mid), free)
    ensures x in All(tiles, free) - Gone(tiles, j, i, k, free) + Come(tiles, j, i, k, mid, free)
  {
    var tiles' := Edited(tiles, j, i, k, mid);
    var n := FindTile(tiles', x, free);
    if x.0.slab == j && i <= n < i + |mid| {
      BetweenIn(j, tiles'[j], i, i + |mid|, n);
    } else {
      var n' := n;
      if x.0.slab == j {
        n' := ItemBefore(j, tiles[j], i, k, mid, n);
      }
      TileIn(tiles, x.0.slab, n');
      NotGone(tiles, j, i, k, free, x, n');
    }
  }

  lemma {:induction false} KeptItem(tiles: seq<seq<Tile>>, j: nat, i: nat, k: nat, mid: seq<Tile>, free: bool,
                                    x: (Block, int))
    requires j < |tiles| && SameSpan(tiles[j], i, k, mid) && x in All(tiles, free) - Gone(tiles, j, i, k, free)
    ensures x in All(Edited(tiles, j, i, k, mid), free) && x !in Come(tiles, j, i, k, mid, free)
  {
    var tiles' := Edited(tiles, j, i, k, mid);
    var n := FindTile(tiles, x, free);
    var n' := n;
    if x.0.slab == j {
      if i <= n < k {
        BetweenIn(j, tiles[j], i, k, n);
      }
      n' := ItemMoved(j, tiles[j], i, k, mid, n);
    }
    TileIn(tiles', x.0.slab, n');
    NotGone(tiles', j, i, i + |mid|, free, x, n');
  }

  lemma {:induction false} ComeItem(tiles: seq<seq<Tile>>, j: nat, i: nat, k: nat, mid: seq<Tile>, free: bool,
                                    x: (Block, int))
    requires j < |tiles| && SameSpan(tiles[j], i, k, mid) && x in Come(tiles, j, i, k, mid, free)
    ensures x in All(Edited(tiles, j, i, k, mid), free)
  {
    var n := InBetween(j, Spliced(tiles[j], i, k, mid), i, i + |mid|, free, x);
    TileIn(Edited(tiles, j, i, k, mid), j, n);
  }

  lemma {:induction false} GoneItem(tiles: seq<seq<Tile>>, j: nat, i: nat, k: nat, free: bool, x: (Block, int))
    requires j < |tiles| && i <= k <= |tiles[j]| && x in Gone(tiles, j, i, k, free)
    ensures x in All(tiles, free)
  {
    var n := InBetween(j, tiles[j], i, k, free, x);
    TileIn(tiles, j, n);
  }

  lemma {:induction false} EditAll(tiles: seq<seq<Tile>>, j: nat, i: nat, k: nat, mid: seq<Tile>, free: bool)
    requires j < |tiles| && SameSpan(tiles[j], i, k, mid)
    ensures var gone, come := Gone(tiles, j, i, k, free), Come(tiles, j, i, k, mid, free);
            && All(Edited(tiles, j, i, k, mid), free) == All(tiles, free) - gone + come
            && gone <= All(tiles, free) && (All(tiles, free) - gone) !! come
  {
    forall x | x in All(Edited(tiles, j, i, k, mid), free)
      ensures x in All(tiles, free) - Gone(tiles, j, i, k, free) + Come(tiles, j, i, k, mid, free)
    {
      NewItem(tiles, j, i, k, mid, free, x);
    }
    forall x | x in All(tiles, free) - Gone(tiles, j, i, k, free)
      ensures x in All(Edited(tiles, j, i, k, mid), free) && x !in Come(tiles, j, i, k, mid, free)
    {
      KeptItem(tiles, j, i, k, mid, free, x);
    }
    forall x | x in Come(tiles, j, i, k, mid, free) ensures x in All(Edited(tiles, j, i, k, mid), free) {
      ComeItem(tiles, j, i, k, mid, free, x);
    }
    forall x | x in Gone(tiles, j, i, k, free) ensures x in All(tiles, free) {
      GoneItem(tiles, j, i, k, free, x);
    }
  }

  // ---- The lists ----

  ghost predicate InLists(lists: map<int, seq<Block>>, x: (Block, int)) {
    x.1 in lists && x.0 in lists[x.1]
  }

  /** The lists hold exactly the free blocks, each under its size, save those an operation has in hand. */
  ghost predicate ListsOk(lists: map<int, seq<Block>>, tiles: seq<seq<Tile>>, hand: set<(Block, int)>) {
    && hand <= All(tiles, true)
    && (forall x :: InLists(lists, x) <==> x in All(tiles, true) && x !in hand)
  }

  /** A block in hand is in no list. */
  lemma {:induction false} InHand(lists: map<int, seq<Block>>, tiles: seq<seq<Tile>>, hand: set<(Block, int)>,
                                  x: (Block, int))
    requires ListsOk(lists, tiles, hand) && x in hand
    ensures !Listed(lists, x.0)
  {
    if Listed(lists, x.0) {
      var s :| s in lists && x.0 in lists[s];
      assert InLists(lists, (x.0, s));
      OneSize(tiles, x, (x.0, s), true, true);
    }
  }

  lemma {:induction false} PushStep(lists: map<int, seq<Block>>, tiles: seq<seq<Tile>>, hand: set<(Block, int)>,
                                    x: (Block, int))
    requires ListsOk(lists, tiles, hand) && x in hand
    ensures ListsOk(Pushed(lists, x.1, x.0), tiles, hand - {x})
  {
    forall y ensures InLists(Pushed(lists, x.1, x.0), y) <==> y == x || InLists(lists, y) {
    }
  }

  lemma {:induction false} InListsRemoved(lists: map<int, seq<Block>>, size: int, k: nat, y: (Block, int))
    requires size in lists && k < |lists[size]| && Distinct(lists[size])
    ensures InLists(Removed(lists, size, k), y) <==> y != (lists[size][k], size) && InLists(lists, y)
  {
    var l := lists[size];
    if y.1 == size {
      if InLists(Removed(lists, size, k), y) {
        var m :| 0 <= m < |WithoutAt(l, k)| && WithoutAt(l, k)[m] == y.0;
        EntryWithout(l, k, m);
        SameEntry(l, k, if m < k then m else m + 1);
      }
      if InLists(lists, y) && y.0 != l[k] {
        var m :| 0 <= m < |l| && l[m] == y.0;
        assert WithoutAt(l, k)[if m < k then m else m - 1] == y.0;
      }
    }
  }

  lemma {:induction false} TakeStep(lists: map<int, seq<Block>>, tiles: seq<seq<Tile>>, hand: set<(Block, int)>,
                                    size: int, k: nat)
    requires ListsOk(lists, tiles, hand) && size in lists && k < |lists[size]| && Distinct(lists[size])
    ensures (lists[size][k], size) in All(tiles, true) && (lists[size][k], size) !in hand
    ensures ListsOk(Removed(lists, size, k), tiles, hand + {(lists[size][k], size)})
  {
    assert InLists(lists, (lists[size][k], size));
    forall y ensures InLists(Removed(lists, size, k), y) <==> y != (lists[size][k], size) && InLists(lists, y) {
      InListsRemoved(lists, size, k, y);
    }
  }

  /** Where a free block that is not in hand stands in the lists. */
  lemma {:induction false} InList(lists: map<int, seq<Block>>, tiles: seq<seq<Tile>>, hand: set<(Block, int)>,
                                  x: (Block, int))
    returns (k: nat)
    requires ListsOk(lists, tiles, hand) && x in All(tiles, true) && x !in hand
    ensures x.1 in lists && k < |lists[x.1]| && lists[x.1][k] == x.0
  {
    assert InLists(lists, x);
    k :| 0 <= k < |lists[x.1]| && lists[x.1][k] == x.0;
  }

  /** An edit whose free blocks are all in hand leaves the lists right for the new row. */
  lemma {:induction false} EditLists(lists: map<int, seq<Block>>, tiles: seq<seq<Tile>>, tiles': seq<seq<Tile>>,
                                     hand: set<(Block, int)>, gone: set<(Block, int)>, come: set<(Block, int)>)
    requires ListsOk(lists, tiles, hand) && gone <= hand
    requires All(tiles', true) == All(tiles, true) - gone + come && (All(tiles, true) - gone) !! come
    ensures ListsOk(lists, tiles', hand - gone + come)
  {
    forall x ensures InLists(lists, x) <==> x in All(tiles', true) && x !in hand - gone + come {
      assert InLists(lists, x) <==> x in All(tiles, true) && x !in hand;
    }
  }

  // ---- Refs ----

  /** The ref of a block when the slabs begin at the given section. */
  function RefAt(sections: nat, b: Block): nat {
    (sections + b.slab) * SECTION + b.off
  }

  ghost predicate RefsOk(tiles: seq<seq<Tile>>, refs: map<Block, nat>, sections: nat) {
    forall x :: x in All(tiles, true) ==> x.0 in refs && refs[x.0] == RefAt(sections, x.0)
  }
}
