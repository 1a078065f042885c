# The storage engine of SQLite 3.5.9, modelled and proved in Dafny

A model of the part of SQLite 3.5.9 that keeps tables in B-trees on pages of a
file, and of a few algorithms beside it, with proofs about all inputs, all runs and
all reachable states. `dafny verify dfyconfig.toml` checks the whole project.

| part | modules | what is modelled |
|---|---|---|
| bytes of a page | `CellFormat`, `CellTexts`, `PageSpace`, `MemPages`, `Varints`, `Division` | cells, freeblocks and fragments on the page's own bytes, changed in place |
| balancing | `Packing`, `Balance`, `Rebalance`, `BalanceNonroot`, `BalanceRoom`, `SubtreeOrder`, `BalanceSorted`, `BalanceShape`, `Walks` | siblings gathered and scattered anew, the order of everything below them, and the search order and the depth of the whole tree |
| cursors | `TreeOrder`, `KeyOrder`, `Cursor`, `BtCursors` | moving through a B-tree and searching it |
| payloads | `Payload`, `FillCell` | overflow chains, the page list cache, the pointer map's part in following them |
| free pages and vacuum | `FreeList`, `Relocation`, `VacuumSize`, `IncrVacuum` | trunks and leaves, the pointer map, moving pages, whole vacuums on the free list as it is stored |
| shared caches | `LockOrder`, `LockProgress`, `MutexArrays`, `SharedCache` | the mutex protocol as steps of many connections; transactions and table locks |
| code generation | `SqlLogic`, `ExprCode`, `ExprCoder`, `ExprValue`, `ExprOk`, `AnalyzeCode`, `AnalyzeRun` | conditions compiled to jumps, and the program of ANALYZE, with the opcodes they use |
| data structures and algorithms | `Bitvec`, `HashTable`, `Pattern`, `Calendar`, `DateTimes` | sets of page numbers, hash tables, LIKE and GLOB, dates |

Code that changes fields, arrays or lists in place is a class or a method with loops,
proved against functions; code that only computes is functions. A module is about one
part of one source file, so short names such as `Linked`, `Moved` or `Cell` mean what
they mean in that part; a module opens no two others in which such a name differs in meaning.

The pager is a map from page numbers to pages. Memory that cannot be had, and page
reads and writes that fail, are left to chance or to a parameter and lead to the
source's early return. Pages beyond the free list (`allocateBtreePage` at the end of
the file) come from a list that the caller passes.

Three kinds of order are used for B-trees. `Walks.Walk` is the sequence of entries met
from left to right. `KeyOrder.Sorted` is what a search relies on: what is below a child
stands before the cell that points to it and after the cell before that; a separator of
a table comes right after the entry with its key, so it has the rank `2 * key + 1` where
an entry has `2 * key`. `BalanceSorted` shows that the second is just the first in
ascending order with separators in place.

## Model

| member | source | states |
|---|---|---|
| MemPages.MemPage.AllocateSpace | sqlite/3.5.9/btree.c:741-795 | room is found exactly when the page has that many free bytes and no overflow cell, by freeblock, gap or defragmentation; it overlaps nothing, all other cells keep their bytes, and the free bytes drop by just the size |
| MemPages.MemPage.FreeSpace | sqlite/3.5.9/btree.c:804-863 | after the region joins the chain, cells, freeblocks and fragments again cover the content area without overlap, freeblocks ascend with gaps of 4 or more, and the recomputed free bytes grow by its size |
| MemPages.MemPage.DefragmentPage | sqlite/3.5.9/btree.c:681-738 | every cell keeps its bytes and its place in the order; all free space is one gap, with no freeblock and no fragment |
| MemPages.MemPage.InsertCell | sqlite/3.5.9/btree.c:4588-4668 | the cell is put in at its place and no other changes, if there is room; else it is an overflow cell and the page is as it was; the page invariant holds either way |
| MemPages.MemPage.DropCell | sqlite/3.5.9/btree.c:4546-4580 | exactly this cell goes, the others keep their bytes, and the free bytes grow by its size and its two pointer bytes |
| MemPages.MemPage.InitPage | sqlite/3.5.9/btree.c:904-975 | on a page in a state the operations can leave, the free bytes recomputed from the bytes are the ones kept, and no such page is taken for corrupt |
| MemPages.MemPage.ZeroPage | sqlite/3.5.9/btree.c:983-1013 | the page is empty, with all its space free |
| PageSpace.FragmentsAreTheRest | sqlite/3.5.9/btree.c:4546-4580 | the fragment byte is what gap, cells and freeblocks leave of the content area, so it never underflows |
| CellTexts.MakeCell | sqlite/3.5.9/btree.c:4345-4469 | the text that is made is read as the cell that was asked for, whatever follows it on the page: key, data size, payload size, local bytes, the number of the first overflow page where iOverflow says, and the size is the whole text, that number included, but at least 4 |
| CellTexts.TextRead | sqlite/3.5.9/btree.c:546-613 | child pointer, header fields, local bytes and overflow page number of any cell are read again from its text |
| Packing.GreedyMinimal | sqlite/3.5.9/btree.c:5139-5160 | the pass from the left uses no more pages than any other division of the cells into runs that fit |
| Packing.Pack | sqlite/3.5.9/btree.c:5139-5185 | both passes end with every page within its space and not empty, the cells in order, no more pages than any packing needs, and each pair of pages evened out exactly as the second pass does it |
| Packing.SplitPacked | sqlite/3.5.9/btree.c:5139-5185 | cells that fitted on their pages but for one overflow cell fit on one page more, or two where the leaves hold all data |
| Packing.PackSiblings | sqlite/3.5.9/btree.c:5139-5185 | for up to three siblings of which one cell overflows, both passes stay within the five entries of their arrays |
| Packing.IndexCellsLimited | sqlite/3.5.9/btree.c:1740-1760 | an index cell of any payload is small enough that two fit on a page, so it can be a divider |
| BalanceRoom.RoomEnough | sqlite/3.5.9/btree.c:4860-5012 | that the siblings held the cells, all but one of them, gives a packing of the gathered cells into five pages at most |
| Balance.FindsLogical | sqlite/3.5.9/btree.c:519-536 | the search among overflow cells finds the cell that has the given place in the page's logical order, for any number of overflow cells |
| Balance.SetChildLogical | sqlite/3.5.9/btree.c:5351-5352 | writing a child pointer where that search says changes just that cell of the logical order |
| Rebalance.Gather | sqlite/3.5.9/btree.c:5057-5122 | the gathered cells meet what was below the siblings and between them, in order; the parent has lost just the dividers |
| Rebalance.Scatter | sqlite/3.5.9/btree.c:5275-5387 | the new pages and dividers meet what the gathered cells do, in order; each page has its run of cells, and a divider between leaves of a table is the largest key on its left |
| BalanceNonroot.BtShared.BalanceNonroot | sqlite/3.5.9/btree.c:4855-5425 | everything below the parent is met in the same order as before, separators of inner table pages included; every child pointer is in its slot, the keys outside the siblings are kept, each new sibling has the run of cells that the two packing loops give it, and siblings ascend in page number; their numbers are the old ones as far as they reach and then new ones, old pages not needed are freed, and no other page changes |
| SubtreeOrder.BalancingKeepsOrder | sqlite/3.5.9/btree.c:4855-5425 | down to the leaves the sequence of entries is as before, and with separators too except where leaves of a table are balanced |
| BalanceSorted.SortedRises | sqlite/3.5.9/btree.c:3684-3765 | a subtree is in search order exactly when walking through it meets entries and separators in ascending order within the bounds |
| BalanceSorted.BalancingKeepsSorted | sqlite/3.5.9/btree.c:4855-5425 | every divider still separates its two sides: the subtree stays in search order within the same bounds, in an index, between leaves of a table, and between its inner pages |
| BalanceSorted.TreeStaysSorted | sqlite/3.5.9/btree.c:4855-5425 | balancing anywhere in a tree leaves the whole tree in search order |
| BalanceShape.BalancingKeepsShape | sqlite/3.5.9/btree.c:4855-5425 | afterwards all children of the parent are equally deep and have cells if and only if an old sibling had a cell or a divider came down |
| BalanceShape.TreeStaysEven | sqlite/3.5.9/btree.c:4855-5425 | then the whole tree is evenly deep with no page empty, when the parent keeps a cell or is the root |
| BalanceShape.CursorReady | sqlite/3.5.9/btree.c:3376-3441 | with no overflow cell left, the tree is all that the searches and moves of a cursor ask for, search order included |
| TreeOrder.LeftFull | sqlite/3.5.9/btree.c:3376-3441 | what is left of a cursor's place and what comes from there on is everything, in order |
| TreeOrder.SameOrder | sqlite/3.5.9/btree.c:3830-3951 | the entries a cursor meets are, in order, those that balancing keeps |
| KeyOrder.SortedBetween | sqlite/3.5.9/btree.c:3684-3765 | the entries of a tree in search order ascend strictly between its bounds |
| Cursor.SearchPage | sqlite/3.5.9/btree.c:3690-3745 | the binary search of a page ends at the key, or between the two cells where it would be |
| Cursor.Search | sqlite/3.5.9/btree.c:3684-3765 | the descent reports 0 exactly when the key is in the tree; else it stops on a leaf with everything after its place larger, or everything before it smaller |
| Cursor.Next | sqlite/3.5.9/btree.c:3830-3890 | the next place is that of the entry that follows in order, and the end is reported exactly when none follows |
| Cursor.Previous | sqlite/3.5.9/btree.c:3898-3951 | the same, backwards |
| BtCursors.BtCursor.First | sqlite/3.5.9/btree.c:3562-3580 | the cursor is on the first entry, or reports that there is none |
| BtCursors.BtCursor.Last | sqlite/3.5.9/btree.c:3586-3605 | the cursor is on the last entry, or reports that there is none |
| BtCursors.BtCursor.NextEntry | sqlite/3.5.9/btree.c:3830-3890 | exactly the entry pointed to leaves what remains |
| BtCursors.BtCursor.PreviousEntry | sqlite/3.5.9/btree.c:3898-3951 | exactly one entry, the one before, joins what remains |
| BtCursors.BtCursor.Moveto | sqlite/3.5.9/btree.c:3635-3798 | 0 exactly when the key is there; else the cursor is on an entry next to where it would be and the sign tells the side, also through the two shortcuts for table cursors |
| BtCursors.Scan | sqlite/3.5.9/btree.c:3562-3580 | First and then Next until the end meet every entry once, in order |
| BtCursors.ScanBack | sqlite/3.5.9/btree.c:3586-3605 | Last and then Previous until the end meet every entry once, in reverse order |
| CellFormat.LocalSizeComputed | sqlite/3.5.9/btree.c:588-612 | the local size is the source's arithmetic on minLocal, maxLocal and the room of an overflow page |
| Payload.LocalSizeBest | sqlite/3.5.9/btree.c:588-612 | the local part lies between its bounds, and no other size within them needs fewer overflow pages |
| Payload.LocalSizeFull | sqlite/3.5.9/btree.c:588-612 | where the surplus fits on the page, all overflow pages are full |
| Payload.GetOverflowPage | sqlite/3.5.9/btree.c:2980-3050 | the guess by pointer map never gives another page than the chain does |
| Payload.AccessPayload | sqlite/3.5.9/btree.c:3110-3242 | reading gives exactly the slice asked for, writing changes exactly that slice, an offset past the end is refused with nothing changed, and the lazily filled page list cache never changes the answer |
| FillCell.FillInCell | sqlite/3.5.9/btree.c:4345-4469 | each byte of the cell is the one its sources give, over as many pages as are needed and no more; it fails exactly when there are too few; the pointer map stays true for the new chain and for all others |
| FillCell.StoredExactly | sqlite/3.5.9/btree.c:4459-4462 | what is stored is key, data and zeros exactly when, for an index cell, it has a key and the data starts with as many zeros as zero bytes are asked for, or it has no key and only zeros for data |
| FillCell.ClearCell | sqlite/3.5.9/btree.c:4301-4331 | the pages of the cell's chain are freed in order, as many as were allocated, or up to one whose number the file does not have |
| FillCell.StoreAndRead | sqlite/3.5.9/btree.c:3110-3242 | what is stored is read again at any offset and length, in every file format, with or without a page list cache |
| Varints.PutVarint | sqlite/3.5.9/util.c:505-530 | the bytes are the number's groups of 7 bits, or 8 in the ninth byte, with as few bytes as hold it |
| Varints.ReadWritten | sqlite/3.5.9/util.c:558-715 | what is written is read again, with its length, for every 64-bit number |
| FreeList.TakeFromList | sqlite/3.5.9/btree.c:3974-4165 | exactly the page returned leaves the list, also when it is a trunk whose first leaf takes its place, and an exact search returns the page looked for; a search misled by an old number leaves no sound list |
| FreeList.StaleCanHappen | sqlite/3.5.9/btree.c:4217-4296 | freeing a page while the first trunk is full can leave a trunk that misleads a later search |
| FreeList.CleanNotStale | sqlite/3.5.9/btree.c:4026-4165 | where no free page but a trunk with leaves has the number of a free page in its first place, no exact search is misled |
| FreeList.GivenTwice | sqlite/3.5.9/btree.c:4046-4152 | when the first trunk has misled a search, the next allocation returns the same page again |
| FreeList.BtShared.FreePage | sqlite/3.5.9/btree.c:4217-4296 | exactly this page joins the list, once, as the last leaf of the first trunk if that has room and else as a new first trunk; the header counts it |
| FreeList.BtShared.Allocate | sqlite/3.5.9/btree.c:3974-4165 | exactly the page returned leaves the list, and the header counts it off; if any page will do it is the first trunk without leaves, else the first of its leaves nearest to the page given |
| Relocation.SetChildPtrmaps | sqlite/3.5.9/btree.c:2002-2041 | every reference of the page has an entry that names the page and the kind of reference, and no other entry changes |
| Relocation.ModifyPagePointer | sqlite/3.5.9/btree.c:2057-2102 | the one reference of that kind is redirected; failure means that there is none |
| Relocation.RelocatePage | sqlite/3.5.9/btree.c:2110-2180 | with a true pointer map the page graph is the old one with one page renamed, and the pointer map is true again |
| VacuumSize.FindPtrmapPage | sqlite/3.5.9/btree.c:408-418 | the arithmetic finds the first page of the group that a page is in, one further if that is the locked page |
| VacuumSize.FinalSize | sqlite/3.5.9/btree.c:2334-2371 | the arithmetic, wrap-around of 32 bits included, gives the size that `SizeOf` defines |
| VacuumSize.ExactCondition | sqlite/3.5.9/btree.c:2350-2354 | the final size is exact for every file of a layout if and only if page size and usable size have the same number of five-byte entries |
| VacuumSize.SizeGoesWrong | sqlite/3.5.9/btree.c:2350-2354 | for any other layout a file and a number of free pages for which the size is wrong |
| VacuumSize.RoomForEveryPage | sqlite/3.5.9/btree.c:2260-2269 | an exact size has as many free pages below it as pages in use above it, so the allocation loop always finds a target |
| IncrVacuum.UnfoldRenamed | sqlite/3.5.9/btree.c:2110-2180 | renaming a page changes no contents, from wherever one looks and however deep |
| IncrVacuum.IncrVacuumStep | sqlite/3.5.9/btree.c:2200-2287 | one step on the free list as it is stored: the last page is given up after moving what it held below it; file, pointer map and free list are sound afterwards if and only if no old number misled the search; it fails only on the root of a table |
| IncrVacuum.NextMoveGoesPast | sqlite/3.5.9/btree.c:2236-2270 | after a step that the first trunk misled, the next page is moved to the page just given up, beyond the end |
| IncrVacuum.MisledCanHappen | sqlite/3.5.9/btree.c:2229-2247 | a file of six pages on which this happens |
| IncrVacuum.VacuumTo | sqlite/3.5.9/btree.c:2297-2312 | over all steps of a vacuum every table keeps its contents, roots stay where they are, and the last page falls until no page is free or the final size is reached |
| IncrVacuum.AutoVacuumCommit | sqlite/3.5.9/btree.c:2323-2402 | the commit works if and only if all roots lie up to the exact size, else the file stays as it was; it keeps all contents; with nothing free it changes nothing and reports 0, else it reports that size, all data pages up to it and no others are in use, and the free list is empty |
| LockOrder.SomeoneCanMove | sqlite/3.5.9/btmutex.c:40-112 | in every state any run of connections can reach, some connection with work can take a step: no deadlock |
| LockProgress.StepNearer | sqlite/3.5.9/btmutex.c:40-310 | every step inside a routine, whatever sqlite3_mutex_try says, brings the routine nearer to its return |
| LockProgress.ProgressLess | sqlite/3.5.9/btmutex.c:40-310 | every step inside a routine and every Leave leaves less to do over all connections, so no run of them is endless |
| LockProgress.EveryCallReturns | sqlite/3.5.9/btmutex.c:40-202 | from every reachable state each call can return, by steps inside routines and calls of Leave by idle holders only |
| LockProgress.StoppedIsAtRest | sqlite/3.5.9/btmutex.c:40-202 | where nothing of that kind is possible any more, all connections are idle and hold nothing |
| LockProgress.FreeTakenAtOnce | sqlite/3.5.9/btmutex.c:60-72 | Enter on a free mutex takes just that, at once, and gives up nothing |
| LockOrder.AtRest | sqlite/3.5.9/btmutex.c:40-112 | between calls a shared B-tree is locked exactly when it is wanted, and exactly then the connection owns its mutex |
| LockOrder.CallReturns | sqlite/3.5.9/btmutex.c:40-202 | however calls of others interleave, a call that returns has changed the want counts of its B-trees by just what it claims, so enter and leave nest |
| LockOrder.ArrayEnterInOrderExactly | sqlite/3.5.9/btmutex.c:274-291 | locking an array waits in ascending order exactly when the caller holds no mutex that comes after one still to be locked |
| LockOrder.OutOfOrderDeadlocks | sqlite/3.5.9/btmutex.c:274-291 | a run of two connections in which a call out of order ends with both waiting for each other |
| MutexArrays.BtreeMutexArray.Insert | sqlite/3.5.9/btmutex.c:241-267 | the array keeps the order of addresses, whatever is inserted |
| SharedCache.BtShared.BeginTrans | sqlite/3.5.9/btree.c:1903-1993 | the outcome and the new state for every request, with the invariant: counts are right, at most one writer, the exclusive holder is the writer and no two handles hold conflicting locks |
| SharedCache.BtShared.RefusedExactly | sqlite/3.5.9/btree.c:1917-1942 | a transaction that writes is refused if and only if with it there would be two writers, or locks of others beside exclusive access |
| SharedCache.BtShared.BtreeLockTable | sqlite/3.5.9/btree.c:7109-7123 | a lock is refused exactly when it conflicts, and then nothing changes; else just this lock is added or raised, or memory for a new lock is missing and nothing changes |
| SharedCache.DeniedExactly | sqlite/3.5.9/btree.c:101-148 | a lock is refused if and only if the list with it would hold two locks of different handles on one table that are not both for reading |
| SharedCache.WrittenIsReadExactly | sqlite/3.5.9/btree.c:115-135 | a table that another handle writes can be locked if and only if that is to read it uncommitted and it is not the master table; no lock is put down then |
| SharedCache.BtShared.CommitPhaseTwo | sqlite/3.5.9/btree.c:2449-2494 | the handle is out of its transaction and all its locks are gone, or, if the pager fails, nothing changes |
| SharedCache.BtShared.Rollback | sqlite/3.5.9/btree.c:2568-2629 | the handle is out of its transaction and all its locks are gone |
| SharedCache.BtShared.Close | sqlite/3.5.9/btree.c:1412-1466 | a handle that leaves takes its transaction and its locks with it |
| SharedCache.WriterShutsOut | sqlite/3.5.9/btree.c:101-148 | no handle gets a lock on a table that another has locked for writing, unless it reads uncommitted data |
| SharedCache.ExclusiveShutsOut | sqlite/3.5.9/btree.c:101-148 | while a handle is exclusive no other gets any lock |
| SharedCache.LockedHas | sqlite/3.5.9/btree.c:159-220 | locking a table adds or raises exactly this lock and leaves all others |
| SharedCache.WithoutMember | sqlite/3.5.9/btree.c:227-245 | unlocking removes exactly the locks of the handle |
| ExprCoder.Parse.JumpIfTrue | sqlite/3.5.9/expr.c:2893-3011 | the generator that appends to the program and patches jumps makes the code that the proofs are about |
| ExprCoder.Parse.JumpIfFalse | sqlite/3.5.9/expr.c:3022-3162 | the same for jumps when false |
| ExprCoder.Parse.CodeTargetReg | sqlite/3.5.9/expr.c:2171-2680 | the same for values |
| SqlLogic.OneHolds | sqlite/3.5.9/vdbe.c:1686-1694 | exactly one of less, equal and greater holds of two numbers, and the other comparisons are made of these |
| SqlLogic.Tables | sqlite/3.5.9/vdbe.c:1739-1745 | AND is the smaller of two truth values, OR the larger, NOT the mirror |
| ExprOk.TargetOk | sqlite/3.5.9/expr.c:2171-2680 | for every expression, row and surrounding program the code puts `Computed` into the register it tells, and changes no other register in use |
| ExprOk.WhensOk | sqlite/3.5.9/expr.c:2589-2644 | the code for CASE gives the result of the first arm whose test is taken as true, or of ELSE, or NULL |
| ExprOk.ConditionJumps | sqlite/3.5.9/expr.c:2893-3162 | for every condition, row and surrounding program, without exception: the code comes to the label exactly when the jumps take the condition to be true (false), or NULL where that jumps, and otherwise falls through |
| ExprOk.ConditionIsMeant | sqlite/3.5.9/expr.c:2893-3162 | that is the three-valued meaning of the condition wherever AND, OR and NOT meet operands their opcodes are right on; so on every row without fractions when the condition has none either |
| ExprOk.FractionsDisagree | sqlite/3.5.9/vdbe.c:1725-1775 | 0.5 AND 1 as a value is 0, as a jump it is taken |
| ExprValue.OpcodesExactly | sqlite/3.5.9/vdbe.c:1725-1775 | the operands on which OP_And, OP_Or and OP_Not are right: AND with a fraction only where the other is false, OR with one only where the other has an integer part, NOT with none |
| ExprValue.RightExactly | sqlite/3.5.9/expr.c:2171-3162 | every value and condition on the way is computed as what it means if and only if each of these nodes meets such operands |
| ExprValue.RowExactly | sqlite/3.5.9/expr.c:2893-3162 | a row is handled right by every condition without fractional numbers in it if and only if none of its columns is a fraction |
| AnalyzeCode.GenerateCode | sqlite/3.5.9/analyze.c:158-233 | the emitted program has each instruction at its address, with every jump patched to its target |
| AnalyzeRun.Analyzed | sqlite/3.5.9/analyze.c:158-233 | on any rows: nothing is stored for an index without rows; else the number of rows and for each column the estimate made of the groups |
| AnalyzeRun.CountRun | sqlite/3.5.9/analyze.c:158-184 | on any rows the cells hold the number of rows and, per column, of groups of adjacent rows that agree up to there, NULL agreeing with nothing |
| AnalyzeRun.GroupsAreDistinct | sqlite/3.5.9/analyze.c:158-184 | on a sorted index without NULLs the groups are the distinct values of the first columns |
| AnalyzeRun.GroupBounds | sqlite/3.5.9/analyze.c:186-203 | one group at least where there is a row, no more than rows, and no fewer with more columns |
| AnalyzeRun.StoredBounds | sqlite/3.5.9/analyze.c:205-218 | each stored estimate is between 1 and the number of rows, its groups just cover the rows, and more columns give no larger one |
| Bitvec.Test | sqlite/3.5.9/bitvec.c:103-120 | membership, in all three representations |
| Bitvec.Set | sqlite/3.5.9/bitvec.c:129-172 | no other member appears; the new one and all old ones are there if and only if it reports success; else old ones are missing only from the one hash table that had to become sub-bitmaps, and without any memory all of that table are |
| Bitvec.Clear | sqlite/3.5.9/bitvec.c:177-201 | the set without the member |
| Bitvec.Spill | sqlite/3.5.9/bitvec.c:150-165 | the change from hash to sub-bitmaps keeps every member if and only if it reports success; without any memory the set is empty afterwards |
| Bitvec.SpillLoses | sqlite/3.5.9/bitvec.c:150-165 | a table of 61 numbers, all of which are lost when one more is set without memory |
| Bitvec.Rebuild | sqlite/3.5.9/bitvec.c:185-200 | the rebuilt hash has every member but one |
| Bitvec.Probe | sqlite/3.5.9/bitvec.c:103-172 | linear probing ends, at the member if it is there and else at a free slot |
| HashTable.Hash.Insert | sqlite/3.5.9/hash.c:361-423 | insert, replace and delete on a finite map, or, without memory, no change and the data back |
| HashTable.Hash.Find | sqlite/3.5.9/hash.c:325-335 | what the map has for the key |
| HashTable.Hash.Clear | sqlite/3.5.9/hash.c:50-66 | the empty map |
| HashTable.Rehash | sqlite/3.5.9/hash.c:219-249 | the same elements in new buckets, each bucket one run of the list of the length it tells, all links in both directions right |
| HashTable.InsertElement | sqlite/3.5.9/hash.c:191-209 | one element more in the list, at the head of the run of its bucket or of the list |
| HashTable.RemoveElement | sqlite/3.5.9/hash.c:284-316 | exactly one element less, all runs and links right |
| HashTable.MaskedPlace | sqlite/3.5.9/hash.c:246-247 | with the sizes a table takes, the mask gives the bucket that the remainder gives elsewhere |
| Pattern.PatternCompare | sqlite/3.5.9/func.c:459-565 | 1 exactly when the string is in the language of the pattern: collapsing wildcards and jumping to the next candidate lose no match |
| Pattern.StarSplits | sqlite/3.5.9/func.c:475-517 | in that language a star is any split of the string |
| Pattern.SetMeans | sqlite/3.5.9/func.c:521-549 | a set has a character exactly when one of its characters or ranges has it, or after a caret when none has |
| Pattern.ElemsSpell | sqlite/3.5.9/func.c:534-546 | these characters and ranges spell out the text of the set, and a range starts from the character just before it |
| Pattern.LowerAlike | sqlite/3.5.9/func.c:417-421 | without case two characters are alike if and only if they are equal or the two cases of one ASCII letter |
| Pattern.AgreesExactly | sqlite/3.5.9/func.c:550-565 | the matcher agrees with the language on all strings if and only if the pattern has no bare escape at its end, or one only after a run of wildcards |
| Pattern.EscapeCondition | sqlite/3.5.9/func.c:475-520 | an escaped character stands for itself if and only if the escape is not itself a wildcard |
| Calendar.InverseExactly | sqlite/3.5.9/date.c:343-364 | computeYMD undoes computeJD on a date of any year, negative ones included, if and only if its year, from March on, is -4716 or later and no negative century that is no leap year, and it is not the first of March of the year 300 |
| Calendar.DateOff | sqlite/3.5.9/date.c:352 | on the first of March of the year 300 it gives the day before |
| Calendar.DateOffBefore | sqlite/3.5.9/date.c:238 | on the first of March of the year -100 it gives the day after |
| Calendar.NumberOf | sqlite/3.5.9/date.c:238-240 | the number of a day is that of the calendar and one more for a negative century that is no leap year, and one more before -4716 for a year that is no multiple of 4 |
| Calendar.NextNumber | sqlite/3.5.9/date.c:221-253 | days that follow each other have numbers that follow each other if and only if both numbers are off by the same; so always from the year 0, from March on |
| Calendar.NumbersJump | sqlite/3.5.9/date.c:238 | around the first of March of -100 a number is left out, and a year later one is given twice |
| Calendar.EpochIs | sqlite/3.5.9/date.c:221-253 | a day number is not negative if and only if the date is -4713-11-24 or later |
| DateTimes.DateTime.ComputeJD | sqlite/3.5.9/date.c:221-253 | the day number less half a day, the time of day, and the time zone |
| DateTimes.DayPartIs | sqlite/3.5.9/date.c:245 | hours, minutes and seconds are the parts of a day that they are |
| DateTimes.InZoneIs | sqlite/3.5.9/date.c:247 | a time in a zone is the instant that UTC has that many minutes earlier |
| DateTimes.DateTime.ComputeYMD | sqlite/3.5.9/date.c:343-364 | the date of the day number |
| DateTimes.DateTime.Weekday | sqlite/3.5.9/date.c:535-547 | from any date and any time of day, how many days on it goes; and that this is the next such weekday, from 0 to 6 days on, if and only if `WeekdayRight` |
| DateTimes.WeekdayExactly | sqlite/3.5.9/date.c:542-544 | it is if and only if the Julian day is at least -1.5, or it is midnight and the remainder of the negative number takes it no more than 6 days on |
| DateTimes.WeekdayOff | sqlite/3.5.9/date.c:543 | from -4800-01-02 the next Saturday is looked for 12 days on |
| DateTimes.LaterWeekdays | sqlite/3.5.9/date.c:267-298 | from the year -4712 on it is right on every date and time of day that the parser accepts, hour 24 and days up to 31 of any month included |
| DateTimes.DayAgain | sqlite/3.5.9/date.c:343-364 | a date and a time of day lead back to the date if and only if its number does, and before -4713-11-24 only at midnight |
| DateTimes.DateTime.Months | sqlite/3.5.9/date.c:631-641 | 12 * Y + M moves by the months asked for, with M from 1 to 12, and a fraction of a month by days of 1/30, exactly when `WholeMonths` |
| DateTimes.MonthsMoved | sqlite/3.5.9/date.c:631-641 | the whole months moved are those asked for if and only if the number is not negative, is whole, or leads below month 0 |

## Findings

Where the code does not do what it is for, the model keeps the code as it is. Each row
has an input and the exact condition, and names the members that prove both.

| source | what goes wrong | input | exact condition | members |
|---|---|---|---|---|
| sqlite/3.5.9/btree.c:4108-4152 | an exact search of the free list takes a page from a trunk that has no leaves, whose count becomes 0xffffffff | a first trunk without leaves that still holds the number looked for in its first place | the list is sound afterwards if and only if no such trunk comes before the page looked for | `FreeList.TakeFromList`, `FreeList.StaleCanHappen` |
| sqlite/3.5.9/btree.c:2229-2270 | after an incremental vacuum step that this misleads, the next page is moved beyond the end of the file and cut off with it | six pages, 4 and 6 free, page 4 the first trunk with an old 6 in its first place | a step keeps file and free list sound if and only if `Misled` does not hold; whole vacuums keep all contents when no free page but a trunk with leaves has the number of a free page in its first place; the vacuum at commit is not affected | `IncrVacuum.IncrVacuumStep`, `IncrVacuum.NextMoveGoesPast`, `IncrVacuum.MisledCanHappen`, `IncrVacuum.VacuumTo` |
| sqlite/3.5.9/btree.c:4459-4462 | for an index cell with zero bytes at its end the data is copied again instead | key of one byte, data of one byte 1, one zero byte | `StoredRight`: a table; or a key and data that starts with as many zeros as zero bytes are asked for; or no key and nothing but zeros for data | `FillCell.StoredExactly` |
| sqlite/3.5.9/btree.c:2350-2354 | the size after auto-vacuum counts entries of a pointer-map page by the page size instead of the usable size | any layout whose two numbers of entries differ, `3 * Group() + 3` pages, `2 * Entries() + 2` of them free | `pageSize / 5 == usableSize / 5` | `VacuumSize.ExactCondition`, `VacuumSize.SizeGoesWrong` |
| sqlite/3.5.9/btmutex.c:274-291 | locking a mutex array does not back off when a later mutex is held | two connections and two B-trees; one holds the second and locks an array with the first, the other holds the first and enters the second | the caller holds no mutex that comes after one still to be locked | `LockOrder.ArrayEnterInOrderExactly`, `LockOrder.OutOfOrderDeadlocks` |
| sqlite/3.5.9/vdbe.c:1725-1775 | AND, OR and NOT as values drop the fraction of their operands, as jumps they do not | 0.5 AND 1; NOT x for a column x of 0.5 | per node `AndRight`, `OrRight`, no fraction; per expression and row `MetJump`; per row, for conditions without fractional numbers, no column that is a fraction | `ExprOk.FractionsDisagree`, `ExprValue.OpcodesExactly`, `ExprValue.RightExactly`, `ExprValue.RowExactly` |
| sqlite/3.5.9/func.c:550-565 | a pattern that ends in the escape character matches as if it did not | pattern `a\` with escape `\` and string `a` | no escape at the very end, or only after a run of wildcards | `Pattern.AgreesExactly` |
| sqlite/3.5.9/func.c:475-520 | an escape that is itself a wildcard does not escape | pattern `%%` with escape `%` and any string | the escape is neither of the wildcards | `Pattern.EscapeCondition` |
| sqlite/3.5.9/date.c:352 | division towards zero gives the wrong date for a day number | 0300-03-01, read back as 0300-02-29; -0100-03-01, read back as -0100-03-02 | `ReadBack`: the year, from March on, is -4716 or later and not negative, a multiple of 100 and none of 400; and the date is not 0300-03-01 | `Calendar.InverseExactly`, `Calendar.DateOff`, `Calendar.DateOffBefore` |
| sqlite/3.5.9/date.c:238-240 | division towards zero gives days that follow each other numbers that do not | -0100-02-28 and the day after, 2 apart; -0099-02-28 and the day after, with the same number | both days, or neither, are in a year, from March on, whose numbers are too large by `Excess` | `Calendar.NextNumber`, `Calendar.NumbersJump` |
| sqlite/3.5.9/date.c:542-544 | the remainder of a negative day number is negative, so the wrong weekday is found, or one a week late | -4800-01-02 and weekday 6: 12 days on | the Julian day is at least -1.5; or it is midnight and the weekday and the remainder together are at most 6 | `DateTimes.WeekdayExactly`, `DateTimes.WeekdayOff` |
| sqlite/3.5.9/bitvec.c:150-165 | when memory runs out while a hash table becomes sub-bitmaps, members are lost | 61 numbers that hash to the first 61 slots, and one more set without memory | none is lost if the number is there already or its table has fewer than 61; else all of that table are lost where there is no memory at all, and some, or the new number, if and only if it reports failure | `Bitvec.Set`, `Bitvec.SpillLoses` |
| sqlite/3.5.9/date.c:631-641 | a negative fraction of a month counts as a whole month and again as days | January and -0.5 months: December before, and 15 days less | the number of months is not negative, or whole, or leads below month 0 | `DateTimes.MonthsMoved`, `DateTimes.DateTime.Months` |

## Left out

- balance_quick, balance_deeper, balance_shallower and balance: they call the modelled parts; a new sibling that stays empty is left for balance_shallower.
- BalanceNonroot.BtShared.BalanceNonroot: the copies of pages in aSpace, the pointer-map updates after balancing (aFrom, reparentChildPages) and allocation at the end of the file are not modelled; the new page numbers come from a list.
- BalanceShape.TreeStaysEven: where no cell is left for a single new sibling, or the parent has lost its last cell, it says nothing: balance_shallower and the balancing of the parent's own siblings come next.
- MemPages.MemPage.InsertCell: pTemp and the pointer-map entry for an overflow page of the new cell are not modelled; assemblePage is only modelled by the cells it puts on a page, in `Rebalance.Assembled`.
- Relocation.RelocatePage: page 1 has a pointer-map entry of a root here, where the source has none for it.
- VacuumSize.ExactCondition: speaks of files that end before the locked page.
- IncrVacuum.AutoVacuumCommit: speaks of files that end before the locked page, with a layout for which `VacuumSize.ExactCondition` says that the final size is exact.
- IncrVacuum.VacuumTo: without a final size it asks for a free list that misleads no search; that is enough, but a run on another list may also go well.
- FillCell.FillInCell: the hint to the allocator for a page near the last one is not modelled; the pages come from a list. The header of the cell is modelled in `CellTexts`.
- FillCell.ClearCell: reads the chain from pages that freeing does not change.
- Varints.ReadWritten: the reader takes byte by byte, where the source takes two bytes to a word.
- BtCursors.BtCursor.Moveto: keys are integers, compared as such; record comparison is not part of this model. Cursors that need to seek again, skip or report faults are left out.
- SharedCache.BtShared.BeginTrans: the busy handler's retries, statement transactions and page 1's reference are left out; what the pager reports is a parameter.
- LockOrder.SomeoneCanMove: the B-trees of one connection have different shared parts, as the sharing list guarantees.
- ExprOk.ConditionJumps: values are NULL and exact numbers; text, affinity, collation, subqueries, the column cache and the reuse of temporary registers are left out.
- AnalyzeRun.Analyzed: equality of values is identity; opening and closing the cursor, the two names in the stored record and the row id are left out.
- Bitvec.Set: sub-bitmaps are values, not heap objects; sizes are those for pointers of 4 bytes, and of at most 2^31.
- HashTable.Hash.Insert: a key is its class under the comparison function and its spelling; hash and comparison functions are parameters; the first size is that for pointers of 4 bytes, and the soft limit on a table's size is left out.
- Pattern.PatternCompare: on code points; decoding UTF-8 is left out.
- DateTimes.DateTime.ComputeJD: constants with fractions are exact fractions and the time of day is exact; rounding of floating point, hours, minutes and seconds from a day number, and local time are left out.
- DateTimes.DateTime.Weekday: reading the text of a date is not modelled, only which dates it accepts. The comment at date.c:29-32 allows years from 0 to 9999 only; the parser also takes a minus sign (date.c:271-275, 290), and the model follows the parser.
- The pager, the file system and recovery: pages are a map.
- The integrity checker and copying of whole files: messages and raw page copies, nothing beyond the invariants stated here.
- sumStep, sumFinalize and replaceFunc: short loops, easy members only.
