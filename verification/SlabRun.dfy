/** What holds over every run of the slab allocator. */
module SlabRun {
  import opened Tiles
  import opened FreeLists
  import opened SlabSets
  import opened SlabSteps
  import opened Slabs

  // ---- Every valid state ----

  lemma OneSection(sections: nat, b: Block, n: nat)
    requires n > 0 && b.off + n <= SECTION && b.off % 8 == 0
    ensures var ref := RefAt(sections, b);
            ref / SECTION == sections + b.slab == (ref + n - 1) / SECTION && ref % SECTION == b.off && ref % 8 == 0
  {
    RefSection(sections, b);
    RefSection(sections, Block(b.slab, b.off + n - 1));
  }

  /** A live block lies in one section, away from both ends of its slab, and its ref leads to it. */
  lemma {:induction false} LiveTranslates(a: SlabAlloc, x: (Block, int))
    requires a.Valid() && x in a.Live()
    ensures x.0.slab < |a.slabs|
    ensures var ref := RefAt(|a.mappings|, x.0);
            && ref / SECTION == |a.mappings| + x.0.slab < |a.table|
            && a.Translate(ref) == (a.slabs[x.0.slab].addr, x.0.off)
            && (ref + x.1 - 1) / SECTION == ref / SECTION && ref % 8 == 0 && ref >= a.baseline
            && TAG <= x.0.off && x.0.off + x.1 + TAG <= a.slabs[x.0.slab].size
  {
    BlockInside(a.slabs, a.tags, a.tiles, x, false);
    assert a.slabs[x.0.slab].size <= SECTION;
    OneSection(|a.mappings|, x.0, x.1);
    RefAbove(a.baseline, a.mappings, x.0);
  }

  /** Every ref in the file leads into the mapping of its section, inside the part that is mapped. */
  lemma {:induction false} FileTranslates(a: SlabAlloc, ref: nat)
    requires a.Valid() && ref < a.baseline
    ensures ref / SECTION < |a.mappings| <= |a.table|
    ensures a.Translate(ref) == (a.mappings[ref / SECTION].addr, ref % SECTION)
    ensures ref % SECTION < a.mappings[ref / SECTION].len
  {
    AlignUpOk(a.baseline);
    var k := ref / SECTION;
    assert a.mappings[k].len == SectionSize(k, a.baseline);
  }

  /** No two refs of the ref space lead to the same place. */
  lemma {:induction false} TranslationsDiffer(a: SlabAlloc, p: nat, q: nat)
    requires a.Valid() && p / SECTION < |a.table| && q / SECTION < |a.table| && p != q
    ensures a.Translate(p) != a.Translate(q)
  {
    if p / SECTION == q / SECTION {
      assert p % SECTION != q % SECTION;
    }
  }

  /** Live blocks share no byte of the ref space. */
  lemma {:induction false} LiveDisjoint(a: SlabAlloc, x: (Block, int), y: (Block, int))
    requires a.Valid() && x in a.Live() && y in a.Live() && x != y
    ensures var p, q := RefAt(|a.mappings|, x.0), RefAt(|a.mappings|, y.0);
            p + x.1 <= q || q + y.1 <= p
  {
    if x.0 == y.0 {
      OneSize(a.tiles, x, y, false, false);
    }
    BlockInside(a.slabs, a.tags, a.tiles, x, false);
    BlockInside(a.slabs, a.tags, a.tiles, y, false);
    BlocksApart(a.slabs, a.tags, a.tiles, x, y, false, false);
    assert a.slabs[x.0.slab].size <= SECTION && a.slabs[y.0.slab].size <= SECTION;
    if x.0.slab < y.0.slab {
      SlabBefore(|a.mappings|, x.0.slab, y.0.slab);
    } else if y.0.slab < x.0.slab {
      SlabBefore(|a.mappings|, y.0.slab, x.0.slab);
    }
  }

  lemma SlabBefore(sections: nat, i: nat, j: nat)
    requires i < j
    ensures (sections + i) * SECTION + SECTION <= (sections + j) * SECTION
  {
  }

  /** The one request that passes the size check and does not fit; its block is smaller than what was asked for. */
  lemma {:induction false} Misfit(size: nat, n: nat)
    requires 0 < size < SECTION && size % 8 == 0 && Answers(n, size)
    ensures n < size <==> size == SECTION - 8
    ensures size != SECTION - 8 ==> Rounded(size) <= n <= Rounded(size) + HEAD + TAG
  {
    FitsRounded(size);
  }

  // ---- Freeing everything, in any order ----

  ghost predicate Once<X>(s: seq<X>) {
    forall i, j :: 0 <= i < j < |s| ==> s[i] != s[j]
  }

  /** What is left of the requests when the first k blocks have been freed. */
  ghost predicate Left(asked: map<(Block, int), nat>, all: map<(Block, int), nat>, gone: seq<(Block, int)>) {
    && (forall x :: x in asked <==> x in all && x !in gone)
    && (forall x :: x in asked ==> asked[x] == all[x])
  }

  lemma {:induction false} LeftLess(asked: map<(Block, int), nat>, all: map<(Block, int), nat>, gone: seq<(Block, int)>,
                                    x: (Block, int))
    requires Left(asked, all, gone)
    ensures Left(asked - {x}, all, gone + [x])
  {
  }

  lemma {:induction false} NothingLeft(asked: map<(Block, int), nat>, all: map<(Block, int), nat>,
                                       gone: seq<(Block, int)>)
    requires Left(asked, all, gone) && forall x :: x in gone <==> x in all
    ensures asked.Keys == {}
  {
  }

  lemma OneMore<X>(s: seq<X>, k: nat)
    requires k < |s| && Once(s)
    ensures s[k] in s && s[k] !in s[..k] && s[..k + 1] == s[..k] + [s[k]]
  {
  }

  /** Free one more of `all`. */
  method FreeOne(a: SlabAlloc, m: MemRef, size: nat, ghost x: (Block, int), ghost all: map<(Block, int), nat>,
                 ghost gone: seq<(Block, int)>)
    requires a.Valid() && !a.state.Invalid? && Left(a.asked, all, gone)
    requires x in all && x !in gone && x.0 == m.block && m.ref == RefAt(|a.mappings|, m.block) && all[x] == size
    requires Fits(size)
    modifies a`tags, a`refs, a`state, a`tiles, a`hand, a`asked, a.lists
    ensures a.Valid() && !a.state.Invalid? && Left(a.asked, all, gone + [x])
  {
    BlockInside(a.slabs, a.tags, a.tiles, x, false);
    LeftLess(a.asked, all, gone, x);
    a.Free(m.ref, m.block, size, x.1);
  }

  /** Freed in any order, the live blocks leave every slab as the one free block it was made as. */
  method FreeAll(a: SlabAlloc, order: seq<MemRef>, sizes: seq<nat>, ghost entries: seq<(Block, int)>)
    requires a.Valid() && !a.state.Invalid?
    requires |order| == |sizes| == |entries| && Once(entries) && forall x :: x in entries <==> x in a.asked
    requires forall k :: 0 <= k < |order| ==>
      && entries[k].0 == order[k].block && order[k].ref == RefAt(|a.mappings|, order[k].block)
      && a.asked[entries[k]] == sizes[k] && Fits(sizes[k])
    modifies a`tags, a`refs, a`state, a`tiles, a`hand, a`asked, a.lists
    ensures a.Valid() && a.Live() == {} && a.tiles == Wholes(a.slabs)
  {
    ghost var all := a.asked;
    for k := 0 to |order|
      invariant a.Valid() && !a.state.Invalid? && Left(a.asked, all, entries[..k])
    {
      OneMore(entries, k);
      FreeOne(a, order[k], sizes[k], entries[k], all, entries[..k]);
    }
    assert entries[..|order|] == entries;
    NothingLeft(a.asked, all, entries);
    AllReturned(a.slabs, a.tags, a.tiles);
  }

  // ---- Runs ----

  /** Operations of a run. A block is named by the number of the operation that allocated it. */
  datatype Op =
    | Alloc(size: nat)
    | Free(h: nat)
    | Realloc(h: nat, size: nat)
    | Reset
    | Follow(fileSize: nat, inPlace: bool)

  /**
   * What a run should know: the sizes of the live blocks, and whether nothing was allocated or freed since the last
   * reset.
   */
  datatype Books = Books(live: map<nat, nat>, clean: bool)

  predicate Request(size: nat) {
    0 < size < SECTION && size % 8 == 0
  }

  predicate Legal(b: Books, op: Op) {
    match op
    case Alloc(size) => Request(size)
    case Free(h) => h in b.live && Fits(b.live[h])
    case Realloc(h, size) => h in b.live && Fits(b.live[h]) && Request(size)
    case Reset => true
    case Follow(_, _) => b.clean
  }

  /** The books after operation number k. */
  function Book(b: Books, op: Op, k: nat): Books {
    match op
    case Alloc(size) => Books(b.live[k := size], false)
    case Free(h) => Books(b.live - {h}, false)
    case Realloc(h, size) => Books(b.live[k := size] - {h}, false)
    case Reset => Books(map[], true)
    case Follow(_, _) => b
  }

  ghost predicate LegalRun(ops: seq<Op>, n: nat)
    requires n <= |ops|
  {
    n == 0 || (LegalRun(ops, n - 1) && Legal(BookAll(ops, n - 1), ops[n - 1]))
  }

  ghost function BookAll(ops: seq<Op>, n: nat): Books
    requires n <= |ops|
  {
    if n == 0 then Books(map[], true) else Book(BookAll(ops, n - 1), ops[n - 1], n - 1)
  }

  /** Which block belongs to which handle, both ways. */
  datatype Places = Places(at: map<nat, (Block, int)>, owner: map<(Block, int), nat>)

  /** Handles and live blocks correspond one to one, and each block answers the request made under its handle. */
  ghost predicate Matches(b: Books, p: Places, asked: map<(Block, int), nat>) {
    && p.at.Keys == b.live.Keys && p.owner.Keys == asked.Keys
    && (forall h :: h in p.at ==> p.at[h] in p.owner && p.owner[p.at[h]] == h)
    && (forall h :: h in p.at ==> asked[p.at[h]] == b.live[h] && Request(b.live[h]))
    && (forall x :: x in p.owner ==> p.owner[x] in p.at && p.at[p.owner[x]] == x)
  }

  ghost predicate Refs(mem: map<nat, MemRef>, p: Places, sections: nat) {
    forall h :: h in p.at ==> h in mem && mem[h] == MemRef(RefAt(sections, p.at[h].0), p.at[h].0)
  }

  /** Handles are numbers of operations that have happened. */
  ghost predicate Past(b: Books, k: nat) {
    forall h :: h in b.live ==> h < k
  }

  ghost function Placed(p: Places, k: nat, x: (Block, int)): Places {
    Places(p.at[k := x], p.owner[x := k])
  }

  ghost function Unplaced(p: Places, h: nat): Places
    requires h in p.at
  {
    Places(p.at - {h}, p.owner - {p.at[h]})
  }

  lemma {:induction false} MatchesMore(b: Books, p: Places, asked: map<(Block, int), nat>,
                                       asked': map<(Block, int), nat>, k: nat, x: (Block, int), size: nat)
    requires Matches(b, p, asked) && Past(b, k) && x !in asked && asked' == asked[x := size] && Request(size)
    ensures Matches(Books(b.live[k := size], false), Placed(p, k, x), asked')
  {
  }

  lemma {:induction false} MatchesLess(b: Books, p: Places, asked: map<(Block, int), nat>, h: nat)
    requires Matches(b, p, asked) && h in b.live
    ensures Matches(Books(b.live - {h}, false), Unplaced(p, h), asked - {p.at[h]})
  {
  }

  method StepAlloc(a: SlabAlloc, size: nat, k: nat, mem: map<nat, MemRef>, ghost b: Books, ghost p: Places)
    returns (mem': map<nat, MemRef>, ghost p': Places)
    requires a.Valid() && !a.state.Invalid? && Matches(b, p, a.asked) && Refs(mem, p, |a.mappings|) && Past(b, k)
    requires Request(size)
    modifies a, a.lists
    ensures a.Valid() && a.state.Dirty? && Refs(mem', p', |a.mappings|)
    ensures Matches(Books(b.live[k := size], false), p', a.asked)
  {
    ghost var asked := a.asked;
    ghost var n;
    var r;
    r, n := a.Alloc(size);
    MatchesMore(b, p, asked, a.asked, k, (r.value.block, n as int), size);
    mem', p' := mem[k := r.value], Placed(p, k, (r.value.block, n as int));
  }

  method StepFree(a: SlabAlloc, h: nat, mem: map<nat, MemRef>, size: nat, ghost b: Books, ghost p: Places)
    returns (ghost p': Places)
    requires a.Valid() && !a.state.Invalid? && Matches(b, p, a.asked) && Refs(mem, p, |a.mappings|) && h in b.live
    requires b.live[h] == size && Fits(size)
    modifies a`tags, a`refs, a`state, a`tiles, a`hand, a`asked, a.lists
    ensures a.Valid() && a.state.Dirty? && Refs(mem, p', |a.mappings|)
    ensures Matches(Books(b.live - {h}, false), p', a.asked)
  {
    MatchesLess(b, p, a.asked, h);
    BlockInside(a.slabs, a.tags, a.tiles, p.at[h], false);
    a.Free(mem[h].ref, mem[h].block, size, p.at[h].1);
    p' := Unplaced(p, h);
  }

  ghost predicate Kept(a: SlabAlloc, b: Books, mem: map<nat, MemRef>, p: Places, k: nat)
    reads a, a.lists
  {
    && a.Valid() && !a.state.Invalid? && (b.clean ==> a.state.Clean?)
    && Matches(b, p, a.asked) && Refs(mem, p, |a.mappings|) && Past(b, k)
  }

  method StepRealloc(a: SlabAlloc, h: nat, size: nat, k: nat, b: Books, mem: map<nat, MemRef>, ghost p: Places)
    returns (mem': map<nat, MemRef>, ghost p': Places)
    requires Kept(a, b, mem, p, k) && Legal(b, Realloc(h, size))
    modifies a, a.lists
    ensures Kept(a, Book(b, Realloc(h, size), k), mem', p', k + 1)
  {
    ghost var asked, x := a.asked, p.at[h];
    BlockInside(a.slabs, a.tags, a.tiles, x, false);
    ghost var n;
    var r;
    r, n := a.Realloc(mem[h].ref, mem[h].block, b.live[h], size, x.1);
    ghost var y := (r.value.block, n as int);
    Moved(b, p, asked, h, k, y, size, mem, r.value, |a.mappings|);
    mem', p' := mem[k := r.value], Unplaced(Placed(p, k, y), h);
  }

  lemma {:induction false} Moved(b: Books, p: Places, asked: map<(Block, int), nat>, h: nat, k: nat, y: (Block, int),
                                 size: nat, mem: map<nat, MemRef>, r: MemRef, sections: nat)
    requires Matches(b, p, asked) && Past(b, k) && Refs(mem, p, sections) && y !in asked && h in b.live
    requires Request(size)
    requires r == MemRef(RefAt(sections, y.0), y.0)
    ensures Matches(Book(b, Realloc(h, size), k), Unplaced(Placed(p, k, y), h), asked[y := size] - {p.at[h]})
    ensures Refs(mem[k := r], Unplaced(Placed(p, k, y), h), sections) && Past(Book(b, Realloc(h, size), k), k + 1)
  {
    MatchesMore(b, p, asked, asked[y := size], k, y, size);
    MatchesLess(Books(b.live[k := size], false), Placed(p, k, y), asked[y := size], h);
  }

  method StepReset(a: SlabAlloc, b: Books, mem: map<nat, MemRef>, ghost k: nat)
    requires a.Valid()
    modifies a, a.lists
    ensures Kept(a, Books(map[], true), mem, Places(map[], map[]), k + 1)
  {
    a.Reset();
  }

  method StepFollow(a: SlabAlloc, fileSize: nat, inPlace: bool, b: Books, mem: map<nat, MemRef>, ghost p: Places,
                    ghost k: nat)
    requires Kept(a, b, mem, p, k) && b.clean
    modifies a, a.lists
    ensures Kept(a, b, mem, p, k + 1)
  {
    NoHandles(b, p, a.asked);
    a.UpdateReaderView(fileSize, inPlace);
  }

  method Step(a: SlabAlloc, op: Op, k: nat, b: Books, mem: map<nat, MemRef>, ghost p: Places)
    returns (mem': map<nat, MemRef>, ghost p': Places)
    requires Kept(a, b, mem, p, k) && Legal(b, op)
    modifies a, a.lists
    ensures Kept(a, Book(b, op, k), mem', p', k + 1)
  {
    mem', p' := mem, p;
    match op
    case Alloc(size) =>
      mem', p' := StepAlloc(a, size, k, mem, b, p);
    case Free(h) =>
      p' := StepFree(a, h, mem, b.live[h], b, p);
    case Realloc(h, size) =>
      mem', p' := StepRealloc(a, h, size, k, b, mem, p);
    case Reset =>
      StepReset(a, b, mem, k);
      p' := Places(map[], map[]);
    case Follow(fileSize, inPlace) =>
      StepFollow(a, fileSize, inPlace, b, mem, p, k);
  }

  lemma {:induction false} NoHandles(b: Books, p: Places, asked: map<(Block, int), nat>)
    requires Matches(b, p, asked) && asked == map[]
    ensures p.at == map[]
  {
  }

  lemma {:induction false} NoBooks(asked: map<(Block, int), nat>)
    requires asked == map[]
    ensures Matches(Books(map[], true), Places(map[], map[]), asked)
  {
  }

  lemma {:induction false} Begin(a: SlabAlloc)
    requires a.Valid() && a.state.Clean?
    ensures Kept(a, Books(map[], true), map[], Places(map[], map[]), 0)
  {
    NoBooks(a.asked);
  }

  /**
   * Any legal run keeps the allocator valid, and its live blocks are exactly the ones the run should have, each
   * answering its request. The first n operations of the run are carried out.
   */
  method Run(a: SlabAlloc, ops: seq<Op>, n: nat) returns (b: Books, mem: map<nat, MemRef>, ghost p: Places)
    requires a.Valid() && a.state.Clean? && n <= |ops| && LegalRun(ops, n)
    modifies a, a.lists
    ensures b == BookAll(ops, n) && Kept(a, b, mem, p, n)
  {
    if n == 0 {
      b, mem, p := Books(map[], true), map[], Places(map[], map[]);
      Begin(a);
    } else {
      var k: nat := n - 1;
      var b0, mem0;
      ghost var p0;
      b0, mem0, p0 := Run(a, ops, k);
      b := Book(b0, ops[k], k);
      mem, p := Step(a, ops[k], k, b0, mem0, p0);
      assert Kept(a, b, mem, p, k + 1);
    }
  }

  /**
   * At the end of a run: the blocks of two different handles share no byte, and each is as large as what was asked for
   * exactly if that fits a section with its end tags.
   */
  lemma {:induction false} HandlesApart(a: SlabAlloc, b: Books, mem: map<nat, MemRef>, p: Places, k: nat, h: nat,
                                        g: nat)
    requires Kept(a, b, mem, p, k) && h in b.live && g in b.live
    ensures (b.live[h] <= p.at[h].1 <==> Fits(b.live[h])) && (b.live[g] <= p.at[g].1 <==> Fits(b.live[g]))
    ensures h != g ==> mem[h].ref + p.at[h].1 <= mem[g].ref || mem[g].ref + p.at[g].1 <= mem[h].ref
  {
    FitsRounded(b.live[h]);
    FitsRounded(b.live[g]);
    if h != g {
      LiveDisjoint(a, p.at[h], p.at[g]);
    }
  }
}
