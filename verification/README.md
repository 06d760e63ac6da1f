# A verified model of the llbt core

llbt is a copy-on-write page store. This project models its hardest parts in Dafny and proves that they do what the
rest of the store relies on. The code that works by changing things is modelled by classes and methods with loops,
the code that only computes by functions; every operation is tied to a plain mathematical object.

| part | files | it behaves as |
|---|---|---|
| positional B+tree | `BpNode`, `BpShape`, `BpInner`, `BpErase`, `BpTree`, `BpMany`, `BpAppend`, `BpBulk`, `BpSearch`, `BpRun` | a sequence of values, in a tree that is specified node for node |
| slab allocator | `Tiles`, `FreeLists`, `SlabSets`, `SlabSteps`, `SlabChoice`, `Slabs`, `SlabRun`, `Sections`, `ReadOnlySpace` | disjoint live blocks; a set of freed bytes |
| ref translation | `Translation` | a map from refs to addresses, for any interleaving of threads |
| integer arrays | `Bits`, `BitMemory`, `IntArrays`, `Bounds` | a sequence of 64-bit integers |
| word-wise search | `Lanes`, `FirstBit`, `Query`, `ArrayFind`, `Compare` | an element-by-element scan |
| nullable integers | `NullSearch`, `NullSpec`, `IntNull` | a sequence of optional integers |
| blob leaves | `PackedBlocks`, `PackedBlobs`, `Binary` | a sequence of optional byte strings |
| write-out | `WriteOut` | a deep copy that shares what is read-only |

## How it is modelled

- A B+tree node is an image of what lies in node memory: a leaf, or an inner node with its form (compact with an
  element count per child, or general with an offsets array), its children and its stored total. `WF` and `RootWF`
  are the invariants: sizes within 1..M, equal depth, offsets that are prefix sums, compact children exactly full
  except the last, a general node only under general ancestors, totals that are right. `M` is any node limit of at
  least two. `BPlusTree.Valid` adds that the cached leaf, whenever its bounds admit an index, is the stretch of the
  tree it claims to be; the cached end index wraps modulo 2^64 as the original's does.
- Which tree an update leaves is said on values, without offsets, accessors or a cache, in `BpShape`: where a full leaf
  or node is cut, when a thin node absorbs its neighbour, when a root grows or collapses. The methods are proved to
  give exactly that tree.
- A slab is described twice: by its boundary tags, which are what the methods read and write, and by the row of
  blocks (`tiles`) the tags stand for. `SlabAlloc.Valid` says that the tags agree with the row, that the row fills the
  slab exactly, that no two neighbours are free, that each free block is in the list of its size exactly once, that
  slabs sit in consecutive sections behind the mapped file and that the translation table has one entry per section.
  The free lists are circular doubly linked lists, with the ring structure as an invariant.
- Node memory is a string of bits, lowest first, so that shifts, masks, carries and borrows are the machine's.
- Threads translating refs are a state machine whose steps are single loads, compare-and-swaps, lock operations and
  the parts of copying a translation entry; a relaxed load may return any value the limit has had.

Some lemmas are there to show that the model's operations are the program's and are not used by others: `Bits.AddValue`,
`Bits.SubValue`, `Lanes.RepeatValue`, `Lanes.UpperIsShifted`, `Compare.UpWordIs`. `Query.HitsExact` says the same of the
reference scan.

## Results that are not plain agreement

- `do_alloc` accepts every size below 2^26, but `grow_slab` never makes a slab larger than a section including both
  end tags. A block is as large as the rounded request exactly if request + 16 is at most 2^26 (`AllocateBlock`,
  `Alloc`); `Misfit` shows that the one request in between, 2^26 - 8, gets a block that is too small.
- `avoid_null_collision` keeps the rule that below width 64 the null value is the largest of its width, except when
  2^31 - 1 is stored into an array narrower than 64 bits and the null value found by the search needs 32 bits or less
  (`NullSurvives`). A caller, who does not know where the search starts, can tell this much: the rule survives wherever
  it starts if and only if the width is 64 or the value is not 2^31 - 1 (`SafeAnywhere`, `SafeToSet`). Once the rule is
  broken, exactly the stored null value itself is misread (`Step`, `Run`). The search starts at the address of a local
  variable. User addresses of a 64-bit machine are not negative and small enough that the null value found always needs
  64 bits, so there nothing is ever lost and every run reads back (`RunAtAddresses`). `LosingRun` needs a start that is
  a 32-bit address extended by its sign.
- `can_pack` counts the header of a node that `create_block` does not count. A packed leaf therefore takes values up to
  eight bytes larger than a packed leaf can be made of, and `normalize_packed` then fails: it is refused exactly for a
  changed leaf that holds such a value, and nothing is changed (`NormalizePacked`, `NormalizeRefused`).
- If the bounds of the width alone say that every element matches, `find_all_will_match` stops after as many reports as
  the receiver's limit leaves, in 64-bit arithmetic, whatever the receiver says. `Compare.Find` is exact if and only if
  it will not be cut off or the receiver will have stopped by then. All receivers there are stop at their limit
  (`ReceiversStop`), so in this repository the search is always exact (`StoppedAtCut`); `LimitOverrun` is what one that
  went on past its limit would miss.
- The guard in front of the carry-free comparison admits, for greater-than, exactly the values for which no lane can
  carry, and for less-than none (`GuardExact`), so the fast path is never taken for less-than.

## Model

| member | source | states |
|---|---|---|
| `BpNode.SizeBound` | src/llbt/bplustree.cpp:684-743 | a well-formed subtree of height h holds at most M^(h+1) elements |
| `BpNode.CompactOff` | src/llbt/bplustree.cpp:302-332 | in compact form child k starts at k times the element count per child, so the division in the descent finds it |
| `BpNode.OffStrict` | src/llbt/bplustree.cpp:684-743 | the prefix sums behind the offsets array strictly increase |
| `BpShape.OverItself` | src/llbt/bplustree.cpp:684-743 | a well-formed inner node is determined by its children and by whether it is compact, so saying which children there are says all |
| `BpInner.InnerNode.EnsureOffsets` | src/llbt/bplustree.cpp:543-558 | turning a compact node general gives offsets equal to the prefix sums of its children and changes no general node |
| `BpInner.InnerNode.FindChild` | src/llbt/bplustree.cpp:302-332 | in either form the child found is the one that holds the position, and its start is right |
| `BpInner.InnerNode.LocateInsert` | src/llbt/bplustree.cpp:334-383 | an append goes to the last child and keeps the form; any other insertion makes the node general and goes to the child that holds the position |
| `BpInner.InnerNode.Move` | src/llbt/bplustree.cpp:528-541 | the children from an index on, with their offsets shifted, end up behind those of the other node and nowhere else |
| `BpInner.InnerNode.InsertBpNode` | src/llbt/bplustree.cpp:620-682 | hanging a split-off sibling into a node keeps both halves well-formed and loses no element, whether the node has room, is split at its end or is split inside; says which children each half gets; a compact node stays compact |
| `BpInner.SplitAtEndOk` | src/llbt/bplustree.cpp:620-682 | the two halves of a full node split behind its last child are well-formed and hold everything in order |
| `BpInner.SplitInsideOk` | src/llbt/bplustree.cpp:620-682 | the same for a split before the end, with the moved offsets counting from the new node's start |
| `BpInner.InnerNode.ChildChanged` | src/llbt/bplustree.cpp:334-383 | after a child grew in place the total and the later offsets are brought up to date: the node is the well-formed one over the same children |
| `BpErase.DroppedOk` | src/llbt/bplustree.cpp:601-618 | dropping the child that lost its last element leaves right offsets, a right total and the other elements |
| `BpErase.MergedOk` | src/llbt/bplustree.cpp:385-489 | replacing two neighbours by one child with the content of both keeps node and content |
| `BpErase.JoinedOk` | src/llbt/bplustree.cpp:385-489 | appending one inner node's children and shifted offsets to its neighbour's gives a well-formed node with both contents |
| `BpErase.MergeWithNext` | src/llbt/bplustree.cpp:385-489 | neighbours are merged exactly if together they have fewer than three quarters of M entries, into one child with the entries of both, and the content stays |
| `BpTree.KeepShrunk` | src/llbt/bplustree.cpp:433-481 | a child that lost an element is merged with the next one exactly if it has fewer than M / 2 entries, there is a next one and both have fewer than three quarters of M together; the node is then the well-formed one over exactly those children |
| `BpTree.DropEmptied` | src/llbt/bplustree.cpp:419-431 | a child that lost its only element is dropped and the others stay; an only child empties its parent |
| `BpTree.BPlusTree.LeafInsert` | src/llbt/bplustree.cpp:181-219 | a leaf with room takes the values, a full one is cut exactly where the value goes in, an append starts a new leaf; says what each does to the cache bounds |
| `BpTree.LiftInsert` | src/llbt/bplustree.cpp:193-215 | a cache that is right for a child after an insertion is right for the whole node |
| `BpTree.BPlusTree.InnerInsert` | src/llbt/bplustree.cpp:334-383 | inserting below an inner node, through any chain of splits, splices the values in, keeps the invariants of both parts and leaves a truthful cache; the two parts are node for node those the value-level insertion gives |
| `BpTree.BPlusTree.GrowRoot` | src/llbt/bplustree.cpp:817-844 | a root over two halves is well-formed, holds both, and is compact exactly when asked to be |
| `BpTree.BPlusTree.BptreeInsert` | src/llbt/bplustree.cpp:817-844 | insertion at any index, root growth included, is sequence insertion and gives node for node the specified tree; appending keeps a compact tree compact |
| `BpTree.BPlusTree.InnerErase` | src/llbt/bplustree.cpp:385-489 | erasing below an inner node removes that element only, keeps the invariants and leaves a truthful cache; the node that remains is the specified one: at every level a child is dropped when it is empty, merged with the next exactly when it is thin and both fit, and otherwise kept |
| `BpTree.BPlusTree.BptreeErase` | src/llbt/bplustree.cpp:846-860 | after repeated root collapse the tree is sound, so its inner root has at least two children, one element is gone, and the tree is the specified one, merges included |
| `BpTree.BPlusTree.Insert` | src/llbt/bplustree.hpp:364-374 | every invariant kept and content old[..n] + [v] + old[n..], for every index and for npos, in node for node the specified tree |
| `BpTree.BPlusTree.Add` | src/llbt/bplustree.hpp:359-362 | content old + [v] in the specified tree, and a compact tree stays compact |
| `BpTree.BPlusTree.Erase` | src/llbt/bplustree.hpp:658-668 | every invariant kept and content old[..n] + old[n+1..], in the specified tree with its merges and its collapsed root |
| `BpTree.BPlusTree.AccessLeaf` | src/llbt/bplustree.cpp:302-332 | the leaf reached holds the element asked for and, below an inner root, becomes the cached one; for the last position it is the rightmost leaf |
| `BpTree.BPlusTree.Get` | src/llbt/bplustree.hpp:376-400 | the cached path and the full descent both return the element of the sequence at that index; afterwards the cache covers it |
| `BpTree.BPlusTree.Set` | src/llbt/bplustree.hpp:556-564 | one element changes, in tree and cache alike, and no node changes otherwise |
| `BpTree.BPlusTree.Clear` | src/llbt/bplustree.hpp:670-684 | a tree of one empty leaf, with all invariants |
| `BpMany.CheckPositions` | src/llbt/bplustree.hpp:566-577 | accepts exactly the positions that are sorted, unique and in range; otherwise the error is that of the first offending entry |
| `BpMany.SetMany` | src/llbt/bplustree.hpp:566-598 | bad positions change nothing; otherwise each named position holds its value, every other is as before, and the nodes are the same |
| `BpMany.KeptCut` | src/llbt/bplustree.hpp:600-614 | erasing a position below all those erased so far removes that original position |
| `BpMany.EraseMany` | src/llbt/bplustree.hpp:600-614 | bad positions change nothing; otherwise exactly the named original positions are gone, and the tree is that of erasing them one by one from the last |
| `BpBulk.AdoptLeaves` | src/llbt/bplustree.cpp:782-815 | stacking inner levels on full leaves gives a well-formed compact tree with the content of the leaves |
| `BpBulk.SubSize` | src/llbt/bplustree.cpp:782-815 | the element count stored for a group, computed from its index alone, is the true one |
| `BpBulk.CompactTreeUnique` | src/llbt/bplustree.cpp:684-743 | two well-formed compact trees with the same content are the same tree |
| `BpBulk.AppendChunk` | src/llbt/bplustree.hpp:425-495 | one descent fills the last leaf, or adds a new leaf behind a full one, with as many values as go in, and gives the tree that appending them one at a time gives |
| `BpAppend.TailIsSingles` | src/llbt/bplustree.hpp:460-478 | on any tree, adding values to a last leaf with room for them is appending them one at a time |
| `BpAppend.LeafIsSingles` | src/llbt/bplustree.hpp:437-458 | on any tree, hanging a finished leaf behind a full one is appending its values one at a time, through the same splits |
| `BpAppend.AppendedCompact` | src/llbt/bplustree.hpp:425-495 | values appended one at a time to the empty tree give a well-formed compact tree with that content |
| `BpBulk.AddFrom` | src/llbt/bplustree.hpp:425-495 | content old + values with all invariants, on an empty tree and on any other, in node for node the tree that appending the values one at a time gives |
| `BpBulk.LoadBothWays` | src/llbt/bplustree.hpp:425-495 | bulk loading an empty tree builds structurally the tree that appending one at a time builds |
| `BpSearch.SubtreeFirstValue` | src/llbt/bplustree.hpp:838-849 | following first children gives the first element of the subtree |
| `BpSearch.PickChild` | src/llbt/bplustree.hpp:717-771 | the child picked starts below the value unless it is the first, and the next one does not, also when equal elements span children |
| `BpSearch.LowerBound` | src/llbt/bplustree.hpp:717-771 | the least index whose element is not below the value, or the size |
| `BpSearch.SortedIsPartitioned` | src/llbt/bplustree.hpp:717-771 | what the search needs of the content holds of every sorted one, duplicates included, for any element type and any strict weak order |
| `BpRun.WroteIsWriteAll` | src/llbt/bplustree.hpp:566-598 | the bulk write equals writing the values one after the other |
| `BpRun.Run` | src/llbt/bplustree.hpp:376-400 | after any run of get, set, set_many, insert, erase, erase_many, add, add_from and clear the tree holds what a list holds, and every get returned what the list had |
| `Tiles.MarkOk` | src/llbt/alloc_slab.cpp:341-364 | flipping the sign of a block's size in the two tags around it keeps tags and row of blocks in agreement |
| `Tiles.BreakOk` | src/llbt/alloc_slab.cpp:419-435 | so does cutting a block in two with a new tag between |
| `Tiles.JoinOk` | src/llbt/alloc_slab.cpp:437-445 | so does merging two free neighbours, the tag between them vanishing |
| `Tiles.TagsAround` | src/llbt/alloc_slab.hpp:518-546 | the tags before and behind a block agree with it and with its neighbours in size and sign |
| `Tiles.AllFree` | src/llbt/alloc_slab.cpp:584-599 | a row without free neighbours in which nothing is in use is a single block |
| `FreeLists.FreeLists.Push` | src/llbt/alloc_slab.cpp:321-339 | the block becomes the first of the list for its size and all rings stay rings |
| `FreeLists.FreeLists.Remove` | src/llbt/alloc_slab.cpp:305-319 | just that block leaves its list, which goes away when it becomes empty, and all rings stay rings |
| `FreeLists.FreeLists.Pop` | src/llbt/alloc_slab.cpp:284-294 | the first block of a list leaves it |
| `FreeLists.FreeLists.Find` | src/llbt/alloc_slab.cpp:261-272 | the smallest listed size not below the request, if there is one |
| `FreeLists.FreeLists.FindLarger` | src/llbt/alloc_slab.cpp:274-282 | the smallest listed size that leaves room for a second block, if there is one |
| `FreeLists.RingUnlink` | src/llbt/alloc_slab.cpp:296-303 | unlinking an entry leaves a ring of the others in order |
| `SlabSteps.FlipSlabs` | src/llbt/alloc_slab.cpp:341-364 | marking one block leaves every slab consistent |
| `SlabSteps.AllReturned` | src/llbt/alloc_slab.cpp:584-599 | with nothing in use every slab is back to the single block it was made as |
| `SlabSteps.BlocksApart` | src/llbt/alloc_slab.cpp:388-401 | two blocks of a slab, free or in use, have a tag between them |
| `Slabs.SlabAlloc.MarkAllocated` | src/llbt/alloc_slab.cpp:356-364 | a block in hand becomes live, all else as before |
| `Slabs.SlabAlloc.MarkFreed` | src/llbt/alloc_slab.cpp:341-354 | a live block comes into the hand; its size is within the slack the original asserts |
| `Slabs.SlabAlloc.BreakBlock` | src/llbt/alloc_slab.cpp:419-435 | a block is cut exactly if the rest can hold a tag and a block header; the two parts and the tag fill it |
| `Slabs.SlabAlloc.MergeBlocks` | src/llbt/alloc_slab.cpp:437-445 | two free neighbours become one block of both sizes and the tag |
| `Slabs.SlabAlloc.NextSlabSize` | src/llbt/alloc_slab.cpp:447-467 | as much as is allocated already or as many minimal slabs as the request needs with its end tags, whichever is more, and at most a section |
| `Slabs.SlabAlloc.SlabToEntry` | src/llbt/alloc_slab.cpp:388-401 | the end tags then describe one free block that fills the slab |
| `Slabs.SlabAlloc.GrowSlab` | src/llbt/alloc_slab.cpp:447-496 | the new slab starts at the next section, gets the next translation entry and is one free block; it holds the request exactly if the request fits a section with its end tags |
| `Slabs.PlaceNext` | src/llbt/alloc_slab.cpp:469-481 | slab k starts at section (sections of the file) + k |
| `Slabs.SlabAlloc.TakeBlock` | src/llbt/alloc_slab.cpp:366-386 | the first block of the smallest list with room for the request and a second block; a new slab exactly if there is no such list |
| `Slabs.SlabAlloc.AllocateBlock` | src/llbt/alloc_slab.cpp:366-386 | the first free block of exactly the size, uncut; otherwise the first of the smallest list with room to cut, cut to the size; a new slab only if there is neither. At least the request exactly if that fits a section |
| `SlabChoice.ChosenFits` | src/llbt/alloc_slab.cpp:261-282 | what is chosen from the lists is a best fit among the free blocks that lie in the slabs |
| `Slabs.RoundedLeast` | src/llbt/alloc_slab.cpp:216-221 | rounding gives the least multiple of eight that holds the request and a free block header |
| `Slabs.SlabAlloc.Alloc` | src/llbt/alloc_slab.cpp:197-243 | fails exactly in the invalid state; otherwise one fresh live block answers the request and everything else stays, with all invariants. The block is a best fit among the free blocks; the slabs grow only if no free block has the rounded size or room to be cut to it |
| `Slabs.SlabAlloc.MergePrev` | src/llbt/alloc_slab.cpp:245-251 | the block in hand is merged with a free block before it, of which there is then none |
| `Slabs.SlabAlloc.MergeNext` | src/llbt/alloc_slab.cpp:253-259 | likewise behind, after which no two neighbours anywhere are free |
| `Slabs.SlabAlloc.FreeBlock` | src/llbt/alloc_slab.cpp:584-599 | the block in hand goes back to the lists with nothing left unmerged and no live block touched |
| `Slabs.SlabAlloc.Free` | src/llbt/alloc_slab.cpp:499-527 | exactly that block stops being live, with all invariants; nothing happens in the invalid state |
| `Slabs.SlabAlloc.Realloc` | src/llbt/alloc_slab.cpp:611-641 | the old block is exchanged for a different live block that answers the new request |
| `Slabs.SlabAlloc.RebuildFreelists` | src/llbt/alloc_slab.cpp:408-417 | every slab becomes one listed free block, nothing is live |
| `Slabs.SlabAlloc.Reset` | src/llbt/alloc_slab.cpp:1117-1139 | nothing is live, exactly the first slab remains and only if it is a minimal one, the table matches, the state is clean |
| `Slabs.SlabAlloc.ExtendMappings` | src/llbt/alloc_slab.cpp:1198-1280 | every section of the larger file is mapped over its full extent; all mappings keep their address, save the last if it is partial and cannot be extended in place; the new ones are at new addresses |
| `Slabs.SlabAlloc.RebuildTranslations` | src/llbt/alloc_slab.cpp:1356-1404 | the table has exactly one entry per mapped section and per slab, each with its address, also when only the tail is rewritten |
| `Slabs.SlabAlloc.UpdateReaderView` | src/llbt/alloc_slab.cpp:1198-1320 | following the file to a larger size moves the slabs behind it, keeps the addresses of slabs and of all mappings but a partial one that cannot be extended, and keeps all invariants; a smaller size changes nothing |
| `Slabs.FreshAddresses` | src/llbt/alloc_slab.cpp:1356-1404 | when sections were mapped anew, no two entries of the rebuilt table have the same address |
| `SlabRun.LiveTranslates` | src/llbt/alloc_slab.cpp:1340-1404 | a live block lies in one section and translation of its ref gives its address |
| `SlabRun.FileTranslates` | src/llbt/alloc_slab.cpp:1356-1404 | a ref in the file translates into the mapped part of its section |
| `SlabRun.TranslationsDiffer` | src/llbt/alloc_slab.cpp:1356-1404 | no two refs of the ref space translate to the same place |
| `SlabRun.LiveDisjoint` | src/llbt/alloc_slab.cpp:366-386 | live blocks share no byte of the ref space |
| `SlabRun.Misfit` | src/llbt/alloc_slab.cpp:204-207 | the block is smaller than the request exactly for the request 2^26 - 8 |
| `SlabRun.FreeAll` | src/llbt/alloc_slab.cpp:584-599 | freeing all live blocks in any order returns every slab to the single free block it was made as |
| `SlabRun.Run` | src/llbt/alloc_slab.cpp:197-243 | over any run of alloc, free, realloc, reset and file growth with the sizes do_alloc admits, in which no misfit block is freed, the allocator stays valid and its live blocks are exactly those the run should have, each answering its request |
| `SlabRun.HandlesApart` | src/llbt/alloc_slab.cpp:366-386 | at the end of any run different handles have disjoint blocks, each as large as what was asked for exactly if that fits a section with its end tags |
| `Sections.FindSectionInRange` | src/llbt/alloc_slab.cpp:1498-1510 | the first place in the chunk where the first and the last byte of the request are in the same section; 0 exactly if there is none or the place is 0 itself |
| `Sections.InOneSection` | src/llbt/alloc_slab.hpp:797-800 | the comparison with the upper section boundary tells exactly whether a request stays in one section |
| `ReadOnlySpace.ReadOnlyFree.Free` | src/llbt/alloc_slab.cpp:528-566 | the map then covers exactly the old bytes and the freed ones, as chunks that do not touch; the asserted absence of overlap holds |
| `ReadOnlySpace.FreeRun` | src/llbt/alloc_slab.cpp:528-566 | after any run of disjoint frees the map covers exactly the freed bytes |
| `ReadOnlySpace.Canonical` | src/llbt/alloc_slab.cpp:528-566 | chunks with gaps are determined by the bytes they cover |
| `ReadOnlySpace.AnyOrder` | src/llbt/alloc_slab.cpp:528-566 | the map does not depend on the order of the frees, nor on how the bytes were cut up |
| `Translation.OneCrosses` | src/llbt/alloc_slab.cpp:1406-1433 | of disjoint arrays at most one crosses a section end, and the others end before it |
| `Translation.NextKeeps` | src/llbt/alloc.cpp:116-152 | every step of every thread keeps the invariant, the mutex with the one thread in the guarded part included, never lowers the limit and never changes a published entry |
| `Translation.ExecInv` | src/llbt/alloc.cpp:116-152 | the invariant holds in every state of every interleaving |
| `Translation.LimitGrows` | src/llbt/alloc.cpp:116-152 | over every interleaving the limit only grows and a published entry is final |
| `Translation.LimitSafe` | src/llbt/alloc.hpp:178-226 | the limit never passes the crossing array and equals its offset once the mapping is published, in the entry and in every copy of it |
| `Translation.AddressSafe` | src/llbt/alloc.hpp:553-572 | the fast path is taken only for arrays wholly in the primary mapping, the other only for the crossing array, at its right place, within a page of the start, in a mapping that starts on a page and covers it |
| `Translation.LockedAgrees` | src/llbt/alloc_slab.cpp:1406-1433 | one thread at a time is in the locked part, and its array is at the limit, as asserted there |
| `Translation.LockHeld` | src/llbt/alloc_slab.cpp:1406-1414 | in every state of every interleaving the mutex is held by a thread if and only if that thread is in the guarded part |
| `Translation.LockReleased` | src/llbt/alloc_slab.cpp:1406-1433 | whoever holds the mutex gives it back within three of its own steps, whatever its loads return |
| `Translation.Progress` | src/llbt/alloc.cpp:116-152 | from every state of every interleaving in which no other thread holds the mutex, a thread that runs on its own has the right address of its array within nine steps, and in one if the array is below the limit |
| `Translation.FloorOk` | src/llbt/alloc_slab.cpp:1420-1428 | a mapping starts on a page, at or before its array and less than a page before it |
| `Translation.CopyIsEntry` | src/llbt/alloc.hpp:204-224 | an entry copied without interruption is the entry, less a base that is not published |
| `BitMemory.BoundsArePowers` | src/llbt/array.hpp:556-607 | the bounds of a width are those of unsigned numbers below a byte and of two's complement from a byte on |
| `BitMemory.BitWidthLeast` | src/llbt/array.cpp:195-212 | bit_width gives the smallest width that holds the value |
| `BitMemory.DecodeEncode` | src/llbt/array_direct.hpp:81-184 | a value that fits a width reads back as written |
| `BitMemory.DecodeFits` | src/llbt/array_direct.hpp:149-184 | whatever a field holds fits its width |
| `BitMemory.GetDirect` | src/llbt/array_direct.hpp:149-184 | shifting and masking a byte reads exactly the w bits of the element |
| `BitMemory.SetDirect` | src/llbt/array_direct.hpp:81-135 | exactly the w bits of the element change, to the low bits of the value |
| `IntArrays.OpenBitGap` | src/llbt/array.cpp:484-496 | exactly the bits from the gap to the used end move up by one element; those below stay, and so does all memory behind the last word touched |
| `IntArrays.RewriteStep` | src/llbt/array.cpp:610-628 | rewriting an element at a larger width overwrites no element that has not been read |
| `IntArrays.IntArray.Get` | src/llbt/array_direct.hpp:149-184 | the element of the sequence at that index |
| `IntArrays.IntArray.Expand` | src/llbt/array.cpp:610-628 | widening in place from the top down keeps every element |
| `IntArrays.IntArray.Insert` | src/llbt/array.cpp:499-554 | sequence insertion at every width from 0 to 64; the width grows only if the value needs it, to the least that holds it |
| `IntArrays.IntArray.EnsureMinimumWidth` | src/llbt/array.cpp:610-628 | the elements stay and the value fits |
| `IntArrays.IntArray.Set` | src/llbt/array.cpp:364-378 | one element changes, at a larger width if need be |
| `IntArrays.IntArray.Truncate` | src/llbt/array.cpp:557-578 | a prefix remains; an array that becomes empty goes back to width 0 |
| `IntArrays.IntArray.MoveDown` | src/llbt/array.cpp:310-341 | from a width of a byte on, moving bytes moves the elements behind the erased one down by one |
| `IntArrays.IntArray.MoveDownSlow` | src/llbt/array.cpp:310-341 | below a byte, copying elements one at a time does the same |
| `IntArrays.IntArray.Erase` | src/llbt/array.hpp:862-871 | the element is gone and the others keep their order |
| `IntArrays.IntArray.Adjust` | src/llbt/array.cpp:406-463 | the difference is added to exactly the elements of the range, on the fast path and on the slow one, at the least width that holds the sums and is not below the old one |
| `Bits.AddValue` | src/llbt/array_with_find.hpp:450-479 | bitwise addition is the machine's: the sum of the numbers modulo the word |
| `Bits.SubValue` | src/llbt/array_with_find.hpp:376-386 | bitwise subtraction likewise |
| `Bounds.LowerBound` | src/llbt/array_direct.hpp:225-308 | the branch-free search finds the first index not below the value |
| `Bounds.UpperBound` | src/llbt/array_direct.hpp:310-352 | the first index above the value |
| `Lanes.RepeatValue` | src/llbt/array_with_find.hpp:565-636 | multiplying by all ones over one lane of ones repeats a lane |
| `Lanes.UpperIsShifted` | src/llbt/array_with_find.hpp:376-386 | the upper mask is the lower one shifted to the top of each lane |
| `Lanes.TestZeroIff` | src/llbt/array_with_find.hpp:376-386 | the subtraction trick tells exactly whether some lane is zero, borrows between lanes notwithstanding |
| `Lanes.FindZero` | src/llbt/array_with_find.hpp:388-435 | the first zero (or non-zero) lane, bisection included |
| `Lanes.NoCarry` | src/llbt/array_with_find.hpp:450-479 | with all top bits clear, adding the magic constant carries nothing between lanes |
| `Lanes.GreaterAt` | src/llbt/array_with_find.hpp:437-479 | the word computed then has exactly the top bits of the lanes that are greater |
| `FirstBit.IsolatedIs` | src/llbt/array_with_find.cpp:63-71 | a word and its negative have exactly the lowest set bit in common |
| `FirstBit.PositionOf` | src/llbt/array_with_find.cpp:63-71 | the table inverts the multiplication for all 32 bit positions |
| `FirstBit.FirstSetBit` | src/llbt/array_with_find.cpp:73-80 | the result is the lowest bit set, in either half and for the smallest negative number too |
| `Query.HitsExact` | src/llbt/array_with_find.hpp:295-374 | the reference scan lists exactly the satisfying indices in ascending order |
| `Query.ReportAppend` | src/llbt/array_with_find.hpp:295-374 | reporting in two parts is reporting the whole, stopping where the receiver stops |
| `Query.ReportedIs` | src/llbt/array_with_find.hpp:291-295 | the relation used in contracts is reporting one index after the other until the receiver says stop |
| `ArrayFind.NextHit` | src/llbt/array_with_find.hpp:565-636 | the next match found in what is left of a word, with zero lanes shifted in at the top, is the next match of the scan |
| `ArrayFind.ReportWord` | src/llbt/array_with_find.hpp:565-636 | one word reports the matches of the scan over its lanes, until a match says stop |
| `Compare.ScanLanes` | src/llbt/array_with_find.hpp:481-562 | comparing lane by lane reports the matches of the scan |
| `Compare.EqualAgrees` | src/llbt/array_with_find.hpp:565-636 | after the exclusive or a lane is zero exactly if its element is the value |
| `Compare.GreaterAgrees` | src/llbt/array_with_find.hpp:450-479 | with all top bits clear, the computed word marks exactly the greater elements |
| `Compare.ClearIsPlain` | src/llbt/array_with_find.hpp:462-470 | the unsigned lane handed to the receiver on the fast path is the element |
| `Compare.UpWordIs` | src/llbt/array_with_find.hpp:894-906 | the first whole word is where rounding the start up puts it |
| `Compare.GuardExact` | src/llbt/array_with_find.hpp:894-979 | the guard of the fast path is true exactly for greater-than and values for which no lane can carry |
| `Compare.CompareEquality` | src/llbt/array_with_find.hpp:565-636 | for a value the width holds, exactly the equal (or different) indices of the range in ascending order, until a match returns false |
| `Compare.CompareRelation` | src/llbt/array_with_find.hpp:894-979 | the same for greater-than and less-than and any value |
| `Compare.BoundsDecide` | src/llbt/query_conditions.hpp:279-286 | where the bounds say no element can match none does, and where they say all match all do |
| `Compare.CutExact` | src/llbt/array_with_find.hpp:279-290 | cutting the reports off misses nothing exactly if the end is reached or the receiver has stopped |
| `Compare.StoppedAtCut` | src/llbt/array.cpp:1374-1437 | a receiver that stops at its limit has stopped when it is cut off |
| `Compare.LimitOverrun` | src/llbt/array_with_find.hpp:279-290 | an input on which a receiver that goes on past its limit misses a match |
| `Compare.ReceiversStop` | src/llbt/array.cpp:1374-1437 | the receivers there are, those that count up to a limit and the one that wants the first match, stop at their limit |
| `Compare.Find` | src/llbt/array_with_find.hpp:295-374 | for every condition, width and value the search reports what the scan reports if and only if it will not be cut off at the limit or the receiver will have stopped by then; always for receivers that stop at their limit |
| `NullSearch.CandidatesDiffer` | src/llbt/array_integer.cpp:78-85 | the first 2^64 candidates are pairwise different |
| `NullSearch.CandidateStraight` | src/llbt/array_integer.cpp:78-85 | candidates after a start that is not negative do not wrap until they leave the range |
| `NullSearch.SmallUnused` | src/llbt/array_integer.cpp:88-104 | some number up to the length of a list is not in it |
| `NullSearch.FewRefused` | src/llbt/array_integer.cpp:88-104 | at most as many candidates are refused as there are stored values, and one more |
| `NullSpec.NewWidthLeast` | src/llbt/array_integer.cpp:129-162 | the width chosen is the least that holds the value and a null value above it |
| `NullSpec.AvoidedReads` | src/llbt/array_integer.cpp:129-162 | from any state, avoiding a collision changes no element of the list, and the null value then equals what is to be stored exactly if that was the null value below width 64 and not the largest of the width |
| `NullSpec.NullSurvives` | src/llbt/array_integer.cpp:129-162 | the rule on the null value survives storing a value exactly if the one losing case does not arise |
| `NullSpec.ChosenUsable` | src/llbt/array_integer.cpp:88-104 | wherever the search starts it ends with a usable null value |
| `NullSpec.ChosenLarge` | src/llbt/array_integer.cpp:88-104 | a search that starts at a user address gives a null value above 2^31 - 1, for every array there can be |
| `NullSpec.NothingLost` | src/llbt/array_integer.cpp:129-162 | so storing a value from such a start never costs the rule |
| `NullSpec.SafeAnywhere` | src/llbt/array_integer.cpp:129-162 | the rule survives an insertion wherever the search starts if and only if the width is 64 or the value is not 2^31 - 1 |
| `NullSpec.SafeToSet` | src/llbt/array_integer.cpp:129-162 | the same for overwriting |
| `NullSpec.Lost` | src/llbt/array_integer.cpp:129-162 | a start, a 32-bit address extended by its sign, from which storing 2^31 - 1 costs the rule, and the value that would be misread next |
| `IntNull.FindFirst` | src/llbt/array.cpp:1352-1355 | the first index with the value, or none if there is none |
| `IntNull.IntNullArray.Get` | src/llbt/array_integer.hpp:221-228 | the element of the list, null where the null value is stored |
| `IntNull.IntNullArray.CanUseAsNull` | src/llbt/array_integer.cpp:106-109 | accepts exactly the present null value and values that are not stored |
| `IntNull.IntNullArray.ChooseRandomNull` | src/llbt/array_integer.cpp:88-104 | ends within n + 2 probes for a list of n elements, with the first usable candidate |
| `IntNull.IntNullArray.ReplaceNullsWith` | src/llbt/array_integer.cpp:111-126 | exactly the nulls are rewritten |
| `IntNull.IntNullArray.AvoidNullCollision` | src/llbt/array_integer.cpp:129-162 | the store becomes the one the specification gives |
| `IntNull.IntNullArray.Insert` | src/llbt/array_integer.hpp:183-203 | from any state, insertion into the list of optional integers, of null instead of a number exactly if that is misread; the rule survives exactly outside the losing case |
| `IntNull.IntNullArray.Set` | src/llbt/array_integer.hpp:205-219 | overwriting in the list, likewise |
| `IntNull.IntNullArray.Erase` | src/llbt/array_integer.hpp:252-255 | removal from the list |
| `IntNull.IntNullArray.Clear` | src/llbt/array_integer.hpp:262-266 | the empty list with the rule on the null value |
| `IntNull.HarmlessRun` | src/llbt/array_integer.cpp:129-162 | a run that never stores 2^31 - 1 has no losing step |
| `IntNull.AddressRun` | src/llbt/array_integer.cpp:88-104 | a run whose searches start at user addresses has no losing step, whatever it stores |
| `IntNull.RuleReads` | src/llbt/array_integer.cpp:129-162 | while the rule holds nothing is misread |
| `IntNull.LosingRun` | src/llbt/array_integer.cpp:129-162 | a run of two insertions, with searches that start at a sign-extended 32-bit address, after which a number reads back as null |
| `IntNull.Step` | src/llbt/array_integer.hpp:183-266 | from any state the list reads back after an operation if and only if the operation does not store the null value of an array below width 64 whose null value is not the largest of the width |
| `IntNull.Run` | src/llbt/array_integer.hpp:183-266 | from any state every list of a run reads back if and only if no operation is misread; the rule holds throughout if and only if no step is a losing one |
| `IntNull.RunAtAddresses` | src/llbt/array_integer.hpp:183-266 | when searches start at user addresses, as they do on a 64-bit machine, every element of every run reads back as written and the rule holds, with no condition on the values |
| `PackedBlocks.CanPack` | src/llbt/array_packed_blobs.cpp:103-114 | accepts exactly non-empty lists whose values are all small enough |
| `PackedBlocks.RoundTrip16` | src/llbt/array_packed_blobs.cpp:34-57 | a 16-bit number reads back as written, low byte first |
| `PackedBlocks.RoundTrip32` | src/llbt/array_packed_blobs.cpp:34-57 | a 32-bit number likewise |
| `PackedBlocks.CreateBlock` | src/llbt/array_packed_blobs.cpp:116-157 | refuses exactly no records, too many records and too many bytes; otherwise writes the encoded block |
| `PackedBlocks.BlockRoundTrip` | src/llbt/array_packed_blobs.cpp:167-183 | decoding a record of an encoded block gives back the value, null and empty kept apart |
| `PackedBlocks.BlockEnd` | src/llbt/array_packed_blobs.cpp:59-75 | the longest run that may share a block: a single value, or values that are each small enough to be inline and together fill no more than the target; create_block accepts it whenever it accepts each value alone |
| `PackedBlocks.Widest` | src/llbt/array_packed_blobs.cpp:59-75 | such a run is determined by its start: if it may not be longer it is the longest |
| `PackedBlobs.PackedLeaf.GetSlot` | src/llbt/array_packed_blobs.cpp:286-305 | the value a slot stands for, overridden or in the base blocks |
| `PackedBlobs.PackedLeaf.Get` | src/llbt/array_packed_blobs.cpp:307-311 | the element of the list |
| `PackedBlobs.PackedLeaf.AppendBaseBlocks` | src/llbt/array_packed_blobs.cpp:185-198 | the base blocks decode, in order, to what they held and the new values, cut into the longest blocks |
| `PackedBlobs.PackedLeaf.Create` | src/llbt/array_packed_blobs.cpp:200-253 | accepts exactly what can be packed and then reads back as the values, cut into the longest blocks, with nothing to normalise; a refusal changes nothing |
| `PackedBlobs.PackedLeaf.AppendDeltaBlock` | src/llbt/array_packed_blobs.cpp:324-332 | one more override block, which decodes to the values |
| `PackedBlobs.PackedLeaf.Append` | src/llbt/array_packed_blobs.cpp:334-349 | list append, keeping an injective order table in range and an override for every slot past the base blocks; the new blocks are the values cut into the longest ones |
| `PackedBlobs.PackedLeaf.Insert` | src/llbt/array_packed_blobs.cpp:356-364 | list insertion by one more block, with the same invariants |
| `PackedBlobs.PackedLeaf.SetMany` | src/llbt/array_packed_blobs.cpp:371-386 | overwrites each position given, later entries winning, and no other, with the values cut into the longest blocks |
| `PackedBlobs.PackedLeaf.Erase` | src/llbt/array_packed_blobs.cpp:388-392 | list removal |
| `PackedBlobs.PackedLeaf.Truncate` | src/llbt/array_packed_blobs.cpp:394-398 | a prefix, or everything if it is short enough |
| `PackedBlobs.PackedLeaf.Clear` | src/llbt/array_packed_blobs.cpp:400-403 | the empty list |
| `PackedBlobs.PackedLeaf.NeedsNormalize` | src/llbt/array_packed_blobs.cpp:425-437 | false exactly if nothing is overridden, no slot is unused and the order is the stored one |
| `Binary.BinaryLeaf.ReplaceWithPacked` | src/llbt/array_binary.cpp:127-151 | accepts exactly what can be packed, and then is a packed leaf with exactly the values that needs no normalising; a refusal changes nothing |
| `Binary.BinaryLeaf.UpgradeLeaf` | src/llbt/array_binary.cpp:360-389 | a leaf turns big exactly for a value too large for small blobs; its values stay |
| `Binary.BinaryLeaf.Add` | src/llbt/array_binary.cpp:112-125 | list append in whichever representation; small blobs turn big exactly for a value that needs it, nothing else changes the representation |
| `Binary.BinaryLeaf.Append` | src/llbt/array_binary.cpp:178-213 | list append; a plain leaf turns packed exactly if some value is large, the total exceeds 4096 bytes and all can be packed, and otherwise big exactly if some value needs it |
| `Binary.BinaryLeaf.Set` | src/llbt/array_binary.cpp:215-228 | one element changes; small blobs turn big exactly for a value that needs it |
| `Binary.BinaryLeaf.SetMany` | src/llbt/array_binary.cpp:230-238 | the named positions change, in order; small blobs turn big exactly for values that need it |
| `Binary.BinaryLeaf.Insert` | src/llbt/array_binary.cpp:240-253 | list insertion; small blobs turn big exactly for a value that needs it |
| `Binary.BinaryLeaf.Get` | src/llbt/array_binary.cpp:255-263 | the element of the list |
| `Binary.BinaryLeaf.Erase` | src/llbt/array_binary.cpp:292-300 | list removal in the same representation |
| `Binary.BinaryLeaf.Move` | src/llbt/array_binary.cpp:302-317 | the tail moves to the end of the other leaf, whatever the two representations |
| `Binary.BinaryLeaf.Clear` | src/llbt/array_binary.cpp:319-331 | the empty list; a packed leaf becomes one of small blobs, others stay what they are |
| `Binary.BinaryLeaf.NormalizePacked` | src/llbt/array_binary.cpp:333-347 | the list stays; the leaf needs no further normalising and a change is reported exactly if it needed some, unless it holds a value that cannot be packed, which exactly is refused and changes nothing |
| `Binary.NormalizeRefused` | src/llbt/array_binary.cpp:333-347 | a packed leaf that has taken a value eight bytes above the packing bound cannot be normalised |
| `Binary.Run` | src/llbt/array_binary.cpp:112-347 | any run reads back as the same run on a plain list, through all three representations |
| `WriteOut.Write` | src/llbt/array.cpp:285-307 | read-only subtrees keep their ref, every other reachable node is newly written after what it refers to, null refs and tagged integers pass unchanged, and nothing else is written |
| `WriteOut.BecameSame` | src/llbt/array.hpp:830-855 | a tree written that way is deeply equal to the original |
| `WriteOut.WriteModified` | src/llbt/array.hpp:830-855 | the result is deeply equal when read from the old file with the new nodes; exactly the nodes that are not read-only are written, none for a read-only tree |
| `WriteOut.Clone` | src/llbt/array.cpp:1001-1064 | the copy is newly made throughout, deeply equal to its source, and has as many nodes |

## Left out

- Commit, version lists, snapshot locks and the purging of old mappings: the model starts below them.
- Files, mmap, sync, encryption barriers and the backup handler: input and output. Addresses, the outcome of extending a mapping in place and the numbers the search for a null value starts from are parameters.
- Slabs.SlabAlloc.Alloc: the overflow of the ref space and a failing system allocation are not modelled; refs are unbounded.
- Slabs.SlabAlloc.GrowSlab: likewise.
- Slabs.SlabAlloc.ExtendMappings: a failing map is not modelled.
- Slabs.SlabAlloc.UpdateReaderView: file mode only, without failing maps.
- SlabRun.Run: a misfit block is not freed, since `mark_freed` asserts that blocks are as large as what they were asked for.
- Slabs.SlabAlloc.Free: frees slab space only; freed read-only space is the separate `ReadOnlySpace`, and a failure to extend that map, which makes the state invalid, is not a step (an invalid state is handled wherever it is met).
- Slabs.SlabAlloc.Realloc: the copying of the bytes is not modelled, only the exchange of the blocks.
- Commit size counters, `for_all_free_entries`, `is_all_free` and the other reporting loops of the allocator: they would only add easy members.
- The in-memory and the attached-buffer modes of the allocator: no sections are mapped there, which is the model's start state.
- Translation.AddressSafe: treats one section's entry and the copies made of it; memory order is modelled by letting relaxed loads be stale, not by a full memory model.
- Compare.Find: the SSE branch is not modelled, the portable one is. The end is given as an index; the value that stands for the size of the array is not. The conditions for null and not null are left out, and so is the comparison of two arrays.
- Query.QueryState.Match: the receiver is any function of the indices reported so far, and it counts them; a receiver's own aggregation is not modelled. A value handed over is required to be the element, and every caller proves it.
- Compare.CompareEquality: the word loops of it and of compare_relation are one method, since they differ only in what is done with a word.
- The offsets array of an inner node is a sequence of unbounded numbers; `ArrayUnsigned`'s own widening is not modelled.
- IntArrays.IntArray.Insert: the memory is a field that is reassigned, as long as the words it stands for; memory that is added holds anything and the cap on the number of elements is checked only for nullable integers. Copy-on-write of a read-only node before a change, node headers and padding are not modelled. Range erase, `sum`, `count` and `get_chunk` are left out.
- Binary.BinaryLeaf.Add: small and big blob leaves are plain lists. Values longer than `max_binary_size`, which are cut into chunks and do not read back as one value, are left out; so are values that a packed leaf refuses. The same holds for `Append`, `Set`, `SetMany`, `Insert` and `Move`.
- Binary.Run: values are of a length that every representation takes, at most `max_binary_size` less 24 bytes.
- The search in blob leaves: easy.
- WriteOut.Write: the writer stores a node at a fresh aligned ref; checksums and the byte layout are not modelled.
- `swap`, `find_all`, `for_all`, `get_range`, `split_root` and the destruction of B+tree nodes: easy beside what is here.
- Strings, timestamps, decimals, fixed-size bytes and the C interface: easier variants of the same refinements, or wrappers.
