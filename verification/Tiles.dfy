/** A slab as a row of blocks with a boundary tag before, between and after them. */
module Tiles {

  /** sizeof(BetweenBlocks) and sizeof(FreeBlock). */
  const TAG: nat := 8
  const HEAD: nat := 24

  datatype Tile = Tile(size: nat, free: bool)

  /** The sizes of the blocks on both sides; negated when in use, zero at the ends of a slab. */
  datatype Tag = Tag(before: int, after: int)

  function Sign(t: Tile): int {
    if t.free then t.size else -(t.size as int)
  }

  /** Where block i starts in its slab. For i past the last block this is the size of the slab. */
  function At(tiles: seq<Tile>, i: nat): nat
    requires i <= |tiles|
  {
    if i == 0 then TAG else At(tiles, i - 1) + tiles[i - 1].size + TAG
  }

  ghost predicate Tiled(tiles: seq<Tile>, slabSize: nat) {
    && |tiles| > 0
    && At(tiles, |tiles|) == slabSize
    && (forall i :: 0 <= i < |tiles| ==> tiles[i].size >= HEAD && tiles[i].size % 8 == 0)
  }

  /** Blocks n and n + 1 are both free. */
  ghost predicate Pair(tiles: seq<Tile>, n: nat) {
    n + 1 < |tiles| && tiles[n].free && tiles[n + 1].free
  }

  /** Free neighbours are found at positions lo..hi only. */
  ghost predicate PairsWithin(tiles: seq<Tile>, lo: nat, hi: nat) {
    forall n: nat :: Pair(tiles, n) ==> lo <= n < hi
  }

  ghost predicate NoFreeNeighbours(tiles: seq<Tile>) {
    PairsWithin(tiles, 0, 0)
  }

  function TagAt(tiles: seq<Tile>, i: nat): Tag
    requires i <= |tiles|
  {
    Tag(if i == 0 then 0 else Sign(tiles[i - 1]), if i == |tiles| then 0 else Sign(tiles[i]))
  }

  /** The tags in memory say what the row says. */
  ghost predicate TagsOk(tags: map<nat, Tag>, tiles: seq<Tile>) {
    forall i {:trigger At(tiles, i)} :: 0 <= i <= |tiles| ==>
      At(tiles, i) - TAG in tags && tags[At(tiles, i) - TAG] == TagAt(tiles, i)
  }

  lemma {:induction false} AtLow(tiles: seq<Tile>, i: nat)
    requires i <= |tiles|
    ensures At(tiles, i) >= TAG
  {
  }

  lemma {:induction false} AtMono(tiles: seq<Tile>, i: nat, j: nat)
    requires i < j <= |tiles|
    ensures At(tiles, i) + tiles[i].size + TAG <= At(tiles, j)
    decreases j
  {
    if i < j - 1 {
      AtMono(tiles, i, j - 1);
    }
  }

  lemma {:induction false} AtUnique(tiles: seq<Tile>, i: nat, j: nat)
    requires i <= |tiles| && j <= |tiles| && At(tiles, i) == At(tiles, j)
    ensures i == j
  {
    if i < j {
      AtMono(tiles, i, j);
    } else if j < i {
      AtMono(tiles, j, i);
    }
  }

  lemma {:induction false} AtPrefix(a: seq<Tile>, b: seq<Tile>, i: nat)
    requires i <= |a| && i <= |b| && a[..i] == b[..i]
    ensures At(a, i) == At(b, i)
  {
    if i > 0 {
      assert a[i - 1] == a[..i][i - 1] == b[i - 1];
      assert a[..i - 1] == a[..i][..i - 1] == b[..i - 1];
      AtPrefix(a, b, i - 1);
    }
  }

  /** Blocks i..k replaced by `mid`, which takes up the same space. */
  function Spliced(tiles: seq<Tile>, i: nat, k: nat, mid: seq<Tile>): seq<Tile>
    requires i <= k <= |tiles|
  {
    tiles[..i] + mid + tiles[k..]
  }

  ghost predicate SameSpan(tiles: seq<Tile>, i: nat, k: nat, mid: seq<Tile>) {
    i <= k <= |tiles| && At(tiles, i) + At(mid, |mid|) == At(tiles, k) + TAG
  }

  lemma {:induction false} AtSplicedLow(tiles: seq<Tile>, i: nat, k: nat, mid: seq<Tile>, n: nat)
    requires i <= k <= |tiles| && n <= i
    ensures At(Spliced(tiles, i, k, mid), n) == At(tiles, n)
  {
    assert Spliced(tiles, i, k, mid)[..n] == tiles[..n];
    AtPrefix(Spliced(tiles, i, k, mid), tiles, n);
  }

  lemma {:induction false} AtSplicedMid(tiles: seq<Tile>, i: nat, k: nat, mid: seq<Tile>, n: nat)
    requires i <= k <= |tiles| && n <= |mid|
    ensures At(Spliced(tiles, i, k, mid), i + n) + TAG == At(tiles, i) + At(mid, n)
  {
    if n == 0 {
      AtSplicedLow(tiles, i, k, mid, i);
    } else {
      AtSplicedMid(tiles, i, k, mid, n - 1);
      assert Spliced(tiles, i, k, mid)[i + n - 1] == mid[n - 1];
    }
  }

  lemma {:induction false} AtSplicedHigh(tiles: seq<Tile>, i: nat, k: nat, mid: seq<Tile>, n: nat)
    requires SameSpan(tiles, i, k, mid) && n <= |tiles| - k
    ensures At(Spliced(tiles, i, k, mid), i + |mid| + n) == At(tiles, k + n)
  {
    if n == 0 {
      AtSplicedMid(tiles, i, k, mid, |mid|);
    } else {
      AtSplicedHigh(tiles, i, k, mid, n - 1);
      assert Spliced(tiles, i, k, mid)[i + |mid| + n - 1] == tiles[k + n - 1];
    }
  }

  lemma {:induction false} TiledSplice(tiles: seq<Tile>, i: nat, k: nat, mid: seq<Tile>, slabSize: nat)
    requires Tiled(tiles, slabSize) && SameSpan(tiles, i, k, mid) && mid != []
    requires forall n :: 0 <= n < |mid| ==> mid[n].size >= HEAD && mid[n].size % 8 == 0
    ensures Tiled(Spliced(tiles, i, k, mid), slabSize)
  {
    AtSplicedHigh(tiles, i, k, mid, |tiles| - k);
  }

  /**
   * Memory whose tags were right for the old row is right for the new row once the tags on the seam are: outside the
   * replaced stretch nothing needs to be touched except the two tags that face it.
   */
  lemma {:induction false} TagsSplice(tags: map<nat, Tag>, tags': map<nat, Tag>, tiles: seq<Tile>, i: nat, k: nat,
                                      mid: seq<Tile>)
    requires TagsOk(tags, tiles) && SameSpan(tiles, i, k, mid) && mid != []
    requires forall a :: a in tags && (a < At(tiles, i) - TAG || a > At(tiles, k) - TAG) ==>
               a in tags' && tags'[a] == tags[a]
    requires forall n :: 0 <= n <= |mid| ==>
                           var a := At(tiles, i) + At(mid, n) - 2 * TAG;
                           a in tags' && tags'[a] == TagAt(Spliced(tiles, i, k, mid), i + n)
    ensures TagsOk(tags', Spliced(tiles, i, k, mid))
  {
    var t := Spliced(tiles, i, k, mid);
    forall n | 0 <= n <= |t| ensures At(t, n) - TAG in tags' && tags'[At(t, n) - TAG] == TagAt(t, n) {
      if n < i {
        AtSplicedLow(tiles, i, k, mid, n);
        AtMono(tiles, n, i);
        AtLow(tiles, n);
        assert tags[At(tiles, n) - TAG] == TagAt(tiles, n);
      } else if n <= i + |mid| {
        AtSplicedMid(tiles, i, k, mid, n - i);
      } else {
        var m := n - i - |mid|;
        AtSplicedHigh(tiles, i, k, mid, m);
        AtMono(tiles, k, k + m);
        assert tags[At(tiles, k + m) - TAG] == TagAt(tiles, k + m);
      }
    }
  }

  /** The two tags on the seam change on the side of the replaced stretch only. */
  lemma {:induction false} SeamTags(tiles: seq<Tile>, i: nat, k: nat, mid: seq<Tile>)
    requires i <= k <= |tiles| && mid != []
    ensures TagAt(Spliced(tiles, i, k, mid), i) == TagAt(tiles, i).(after := Sign(mid[0]))
    ensures TagAt(Spliced(tiles, i, k, mid), i + |mid|) == TagAt(tiles, k).(before := Sign(mid[|mid| - 1]))
  {
  }

  // ---- The three edits of the tags ----

  function SetAfter(tags: map<nat, Tag>, a: nat, size: int): map<nat, Tag>
    requires a in tags
  {
    tags[a := tags[a].(after := size)]
  }

  function SetBefore(tags: map<nat, Tag>, a: nat, size: int): map<nat, Tag>
    requires a in tags
  {
    tags[a := tags[a].(before := size)]
  }

  /** Flip the block at `off` between free and in use. */
  ghost function Marked(tags: map<nat, Tag>, off: nat, size: nat, free: bool): map<nat, Tag>
    requires off >= TAG && off - TAG in tags && off + size in tags
  {
    SetBefore(SetAfter(tags, off - TAG, Sign(Tile(size, free))), off + size, Sign(Tile(size, free)))
  }

  /** Cut the free block at `off` into `first` and `rest` bytes with a tag between them. */
  ghost function Broken(tags: map<nat, Tag>, off: nat, first: nat, rest: nat): map<nat, Tag>
    requires off >= TAG && off - TAG in tags && off + first + TAG + rest in tags
  {
    SetAfter(SetBefore(tags, off + first + TAG + rest, rest), off - TAG, first)[off + first := Tag(first, rest)]
  }

  /** Make one free block of two neighbours of the given sizes, the first at `off`. */
  ghost function Joined(tags: map<nat, Tag>, off: nat, first: nat, second: nat): map<nat, Tag>
    requires off >= TAG && off - TAG in tags && off + first + TAG + second in tags
  {
    var size := first + TAG + second;
    SetBefore(SetAfter(tags, off - TAG, size), off + size, size)
  }

  /** What the tags around block i say. */
  lemma {:induction false} TagsAround(tags: map<nat, Tag>, tiles: seq<Tile>, i: nat)
    requires TagsOk(tags, tiles) && i < |tiles|
    ensures At(tiles, i) >= TAG && At(tiles, i) - TAG in tags && tags[At(tiles, i) - TAG] == TagAt(tiles, i)
    ensures At(tiles, i) + tiles[i].size in tags && tags[At(tiles, i) + tiles[i].size] == TagAt(tiles, i + 1)
    ensures At(tiles, i + 1) == At(tiles, i) + tiles[i].size + TAG
  {
    AtLow(tiles, i);
    assert At(tiles, i + 1) == At(tiles, i) + tiles[i].size + TAG;
  }

  lemma {:induction false} AtOne(t: Tile)
    ensures At([t], 0) == TAG && At([t], 1) == t.size + 2 * TAG
  {
  }

  lemma {:induction false} AtTwo(t: Tile, u: Tile)
    ensures At([t, u], 0) == TAG && At([t, u], 1) == t.size + 2 * TAG && At([t, u], 2) == t.size + u.size + 3 * TAG
  {
  }

  lemma {:induction false} MarkOk(tags: map<nat, Tag>, tiles: seq<Tile>, i: nat, free: bool)
    requires TagsOk(tags, tiles) && i < |tiles|
    ensures At(tiles, i) >= TAG && At(tiles, i) - TAG in tags && At(tiles, i) + tiles[i].size in tags
    ensures var mid := [Tile(tiles[i].size, free)];
            && SameSpan(tiles, i, i + 1, mid)
            && TagsOk(Marked(tags, At(tiles, i), tiles[i].size, free), Spliced(tiles, i, i + 1, mid))
  {
    TagsAround(tags, tiles, i);
    var t := Tile(tiles[i].size, free);
    AtOne(t);
    var tags' := Marked(tags, At(tiles, i), tiles[i].size, free);
    SeamTags(tiles, i, i + 1, [t]);
    TagsSplice(tags, tags', tiles, i, i + 1, [t]);
  }

  lemma {:induction false} BreakOk(tags: map<nat, Tag>, tiles: seq<Tile>, i: nat, first: nat, rest: nat)
    requires TagsOk(tags, tiles) && i < |tiles| && tiles[i] == Tile(first + TAG + rest, true)
    ensures var off := At(tiles, i);
            off >= TAG && off - TAG in tags && off + first + TAG + rest in tags
    ensures var mid := [Tile(first, true), Tile(rest, true)];
            && SameSpan(tiles, i, i + 1, mid)
            && TagsOk(Broken(tags, At(tiles, i), first, rest), Spliced(tiles, i, i + 1, mid))
  {
    TagsAround(tags, tiles, i);
    var t, u := Tile(first, true), Tile(rest, true);
    AtTwo(t, u);
    var tags' := Broken(tags, At(tiles, i), first, rest);
    SeamTags(tiles, i, i + 1, [t, u]);
    assert tags'[At(tiles, i) - TAG] == TagAt(Spliced(tiles, i, i + 1, [t, u]), i);
    assert tags'[At(tiles, i) + first] == TagAt(Spliced(tiles, i, i + 1, [t, u]), i + 1);
    assert tags'[At(tiles, i) + first + TAG + rest] == TagAt(Spliced(tiles, i, i + 1, [t, u]), i + 2);
    TagsSplice(tags, tags', tiles, i, i + 1, [t, u]);
  }

  lemma {:induction false} JoinOk(tags: map<nat, Tag>, tiles: seq<Tile>, i: nat)
    requires TagsOk(tags, tiles) && i + 1 < |tiles| && tiles[i].free && tiles[i + 1].free
    ensures var off := At(tiles, i);
            off >= TAG && off - TAG in tags && off + tiles[i].size + TAG + tiles[i + 1].size in tags
    ensures var mid := [Tile(tiles[i].size + TAG + tiles[i + 1].size, true)];
            && SameSpan(tiles, i, i + 2, mid)
            && TagsOk(Joined(tags, At(tiles, i), tiles[i].size, tiles[i + 1].size), Spliced(tiles, i, i + 2, mid))
  {
    TagsAround(tags, tiles, i);
    TagsAround(tags, tiles, i + 1);
    var t := Tile(tiles[i].size + TAG + tiles[i + 1].size, true);
    AtOne(t);
    var tags' := Joined(tags, At(tiles, i), tiles[i].size, tiles[i + 1].size);
    SeamTags(tiles, i, i + 2, [t]);
    assert tags'[At(tiles, i) - TAG] == TagAt(Spliced(tiles, i, i + 2, [t]), i);
    assert tags'[At(tiles, i) + t.size] == TagAt(Spliced(tiles, i, i + 2, [t]), i + 1);
    TagsSplice(tags, tags', tiles, i, i + 2, [t]);
  }

  // ---- Where free neighbours can appear ----

  lemma {:induction false} PairsMark(tiles: seq<Tile>, i: nat, t: Tile)
    requires i < |tiles|
    ensures !t.free && PairsWithin(tiles, i, i + 1) ==> NoFreeNeighbours(Spliced(tiles, i, i + 1, [t]))
    ensures t.free && NoFreeNeighbours(tiles) ==>
              PairsWithin(Spliced(tiles, i, i + 1, [t]), if i > 0 then i - 1 else 0, i + 1)
  {
    var s := Spliced(tiles, i, i + 1, [t]);
    assert s[i] == t;
    forall n: nat | Pair(s, n) && n + 1 != i && n != i ensures Pair(tiles, n) {
    }
    if !t.free && PairsWithin(tiles, i, i + 1) {
      forall n: nat ensures !Pair(s, n) {
      }
    }
  }

  lemma {:induction false} PairsBreak(tiles: seq<Tile>, i: nat, t: Tile, u: Tile)
    requires i < |tiles| && tiles[i].free && NoFreeNeighbours(tiles)
    ensures PairsWithin(Spliced(tiles, i, i + 1, [t, u]), i, i + 1)
  {
    var s := Spliced(tiles, i, i + 1, [t, u]);
    forall n: nat | Pair(s, n) ensures n == i {
      assert !Pair(tiles, if n < i then n else if n > i then n - 1 else i);
    }
  }

  lemma {:induction false} PairsJoin(tiles: seq<Tile>, i: nat, t: Tile, lo: nat, hi: nat)
    requires i + 1 < |tiles| && tiles[i].free && tiles[i + 1].free && PairsWithin(tiles, lo, hi) && lo <= i
    requires i + 1 <= hi <= i + 2
    ensures PairsWithin(Spliced(tiles, i, i + 2, [t]), lo, hi - 1)
  {
    var s := Spliced(tiles, i, i + 2, [t]);
    forall n: nat | Pair(s, n) ensures lo <= n < hi - 1 {
      assert Pair(tiles, if n < i then n else n + 1);
    }
  }

  /** A row without free neighbours in which nothing is in use is one free block. */
  lemma {:induction false} AllFree(tiles: seq<Tile>, slabSize: nat)
    requires Tiled(tiles, slabSize) && NoFreeNeighbours(tiles)
    requires forall n :: 0 <= n < |tiles| ==> tiles[n].free
    ensures slabSize >= 2 * TAG && tiles == [Tile(slabSize - 2 * TAG, true)]
  {
    assert !Pair(tiles, 0);
    AtOne(tiles[0]);
    assert tiles == [tiles[0]];
  }
}
