# A Dafny model of a small i386 kernel's data structures

The project models the parts of the kernel whose correctness is not visible from any one function,
and proves what they promise:

* **The AVL table** (`lib/avl.c`). `AvlTree` holds trees as values with textbook insertion and
  deletion that look only at heights. `AvlSteps` shows that the one-pass insertion (factors stepped
  from the last node with a nonzero factor, one repair there) and the climb of the deletion with its
  early exits compute exactly those trees. `AvlNodes`, `AvlProbe`, `AvlDelete` and `AvlTable` run the
  source's steps on linked, mutable nodes with the fixed stacks, and refine the value trees.
  `AvlHeight` has the Fibonacci bound behind `AVL_MAX_HEIGHT`.
* **The memory pools** (`mm/mm.c`). `PoolList` holds a pool as its blocks in address order, with a
  reference coalescing and whole runs. `PoolMemory` and `PoolHeap` are the doubly linked headers and
  the branches of `mm_free` and `mm_bestfit`; `PoolChain` is the chain of pools with its counters.
* **Bitmaps, page frames, block caches and page tables** (`lib/bits.c`, `mm/page.c`,
  `kernel/cache.c`, `include/kernel/mm.h`): `Bits`, `Frames`, `Cache`, `PhysMem`, `PageTables`,
  `PageNeed`, `Paging`, `UserCopy`, `KernelMap`. The entry format is 32-bit paging, section 4.3 of volume 3A of
  the Intel 64 and IA-32 Architectures Software Developer's Manual.
* **Directories of the file system** (`fs/mfs/mfs.c`): `DirectoryWalk` is the callback-driven walk as
  a fold over one flat sequence of slots, `DirectoryMap` what the slots mean, `DirectoryStore` the
  sector and slot loops on a device that may refuse sectors.
* **Text** (`lib/stdlib.c`, `lib/string.c`, and the path walk of `kernel/kmodel.c`): `CStrings`,
  `Decimal`, `Path`.

## Where the code departs from its intent

The model follows the code; each departure is pinned by an exact condition.

* `avl_delete` can write 33 entries into its stacks of 32: the header takes an entry too, so at height
  32 a search for a missing item that passes 32 nodes overflows, and only such a search
  (`AvlHeight.DeleteFits`, with a table for which it happens in `AvlHeight.DeleteOverflows`).
  `AvlTable.Table.Delete` therefore asks that the search fits; every table below 5,702,886 nodes does.
* `allocspace` ignores a failed `allocpage` and still reports success (`mm/page.c:132-155`). A range is
  mapped exactly when as many frames are free as it has pages without a frame and directory entries
  without a table, and a single page exactly when the need up to it is covered
  (`Paging.Machine.AllocSpace`); a page whose table could not be had is entered in frame 0
  (`Paging.Machine.MapPage`).
* `mm/mm.c:97` relinks `next->pre` where the surviving neighbour is `next->next`. `relink` false is the
  line as written, `relink` true the line as intended: the pool stays recorded exactly when `relink`
  holds or the freed block does not lie between two idle blocks with a block behind them
  (`PoolHeap.Heap.Release`), and such a state is reached (`PoolHeap.PinchedIsReached`).
* `mm_free` does not check which pool owns the block. Single counters go wrong exactly when another
  pool is used (`PoolChain.FreeKeepsExact`); their sum never does (`PoolChain.Chain.Free`).
* The branches at `mm/mm.c:140-160` are dead for live blocks, because the last block is always idle.
* `bitread` does not mask (`lib/bits.c:35`). It is the bit exactly when no higher bit of the byte is set
  (`Bits.ShiftReads`); a free takes effect exactly for the highest bit set in its byte, and no live
  frame or block is issued twice all the same.
* `atoi` parses more than ten digits as the limit even when leading zeros make the number small
  (`Decimal.ParsedIsClamped`, `Decimal.LeadingZerosClamp`).
* `detach_node` steps over the terminator of the path and scans the bytes behind it
  (`lib/stdlib.c:238-249`). The flag and the result are those of the path alone, for every index,
  exactly when the text there has no slash (`Path.GivenIsWanted`, `Path.SlashBehind`); with a slash
  there the walk of `sys_do_open` ends only at a lookup that fails (`Path.Walk`).
* `sys_do_open` does not clear its name buffer and `detach_node` writes no terminator, so a component
  shorter than the one before it is looked up with the longer one's tail (`Path.SeenIsExact`,
  `Path.StaleTail`).
* `mfs_touch` takes a read error for the end of the directory, and `mfs_ex_mkmfsinode` counts a node
  before it is written, also under the empty name: names stay unique and the size exact under the
  conditions of `DirectoryMap.TouchBesideHidden` and `DirectoryMap.TouchConsistent`. Names of exactly
  fourteen characters are compared together with the padding byte behind them
  (`DirectoryMap.SameNameMeans`).

## Model

| member | source | states |
|---|---|---|
| AvlTree.InsertAvl | lib/avl.c:60-129 | textbook insertion keeps every stored factor equal to right height minus left height and within -1..1, and the height grows by at most one |
| AvlTree.InsertFlat | lib/avl.c:44-63 | in order, insertion adds exactly the one new entry at its place and moves no other |
| AvlTree.PlaceSplits | lib/avl.c:44-53 | the place the descent finds has every smaller item before it and every larger one behind it |
| AvlTree.InsertWellFormed | lib/avl.c:24-133 | insertion of an absent item keeps the table well formed and adds exactly that node |
| AvlTree.DeleteAvl | lib/avl.c:191-322 | textbook deletion keeps exact factors within -1..1 and lowers the height by at most one |
| AvlTree.DeleteFlat | lib/avl.c:191-229 | in order, deletion takes out exactly the found entry and moves no other |
| AvlTree.DeleteWellFormed | lib/avl.c:162-327 | deletion keeps the table well formed with its nodes minus the found one and its size minus one |
| AvlTree.LookupComplete | lib/avl.c:4-22 | the descent finds an equal entry exactly when the table holds one |
| AvlSteps.CalmInsert | lib/avl.c:50-71 | below the last nonzero factor every node only gets one taller towards the new leaf, so stepping factors is insertion |
| AvlSteps.SteepInsert | lib/avl.c:67-129 | at the node with the last nonzero factor, stepping and one repair is insertion, and its height is unchanged |
| AvlSteps.InsertBelow | lib/avl.c:50-51 | when the subtree at some depth of the search path keeps its height under insertion, no ancestor changes |
| AvlSteps.OnePassInsert | lib/avl.c:44-129 | hanging the leaf, stepping factors from the last nonzero one down and repairing once there gives the textbook tree |
| AvlSteps.OnePassRotates | lib/avl.c:73-131 | the one-pass repair rotates exactly when textbook insertion does |
| AvlSteps.SettleIsRejoin | lib/avl.c:236-321 | one turn of the climb is textbook rebalancing, and a `break` happens exactly when the subtree has its old height back |
| AvlSteps.ClimbTurn | lib/avl.c:234-322 | invariant of the climb: the subtree on the stack's top link is one level shorter than the factors above say and every other factor is exact; after a `break` all are |
| AvlSteps.ClimbDelete | lib/avl.c:191-322 | unlinking and climbing to the first `break` gives the textbook tree |
| AvlSteps.StackUseBound | lib/avl.c:176-228 | the entries deletion pushes are at most the height when the item is found, and one more exactly when the search passes a longest path |
| AvlSteps.CachedRuns | lib/avl.c:50-52 | along zero factors insertion caches one direction a node, and a nonzero factor starts over |
| AvlNodes.RotateOnce | lib/avl.c:78-81 | the pointer writes of a single rotation leave the nodes linked as the rotated tree, with the given factors and all other nodes untouched |
| AvlNodes.RotateTwice | lib/avl.c:86-97 | the same for the double rotation and its three factor cases |
| AvlProbe.Descend | lib/avl.c:41-53 | the descent ends at the found node or the empty link, with `y`, `z` and the cached directions describing the path below the last nonzero factor, for every table whose cached directions fit the array |
| AvlProbe.StepFactors | lib/avl.c:67-71 | the loop steps exactly the factors on the path from `y` to the new node |
| AvlProbe.RepairTop | lib/avl.c:73-128 | the repair at `y` leaves the nodes linked as the repaired tree and says whether it rotated |
| AvlProbe.InsertNew | lib/avl.c:55-132 | hanging the node, stepping and repairing leaves the nodes linked as the textbook tree under the header |
| AvlDelete.Trace | lib/avl.c:176-189 | the stacks hold the search path from the header and the node found on its end, or the item is absent and nothing changed |
| AvlDelete.FindSuccessor | lib/avl.c:207-218 | the inner loop pushes the left edge of the right subtree and finds its last two nodes |
| AvlDelete.Succeed | lib/avl.c:191-228 | all three splice cases leave the place of the node linked as the tree without it, with the stack extended to the shortened link |
| AvlDelete.ClimbUp | lib/avl.c:233-322 | the climb over the stacks ends with the nodes linked as the whole climb on values gives |
| AvlDelete.RemoveFound | lib/avl.c:191-322 | from a found node to the nodes linked as the textbook tree |
| AvlTable.Table.constructor | include/avl.h:13-21 | an empty valid table under its header, of generation 0 |
| AvlTable.Table.Find | lib/avl.c:6-22 | null exactly when no entry equals the item, else a node of the table that does, in at most as many steps as the height |
| AvlTable.Table.Probe | lib/avl.c:28-133 | a duplicate is returned with every node unchanged; otherwise the table is the textbook insertion of the node and the count one higher; the generation changes exactly when a rotation happens |
| AvlTable.Table.Delete | lib/avl.c:164-327 | null exactly when the item is absent, with every node and the generation unchanged; otherwise the node that held it, and the table is the textbook deletion with one node less and a new generation |
| AvlHeight.HeightNeedsNodes | include/avl.h:9-11 | a balanced tree of height h has at least Fib(h+2)-1 nodes |
| AvlHeight.NodesBoundHeight | include/avl.h:9-11 | fewer than 9,227,464 nodes mean height at most 32, fewer than 5,702,886 at most 31 |
| AvlHeight.BoundsAreExact | include/avl.h:9-11 | from any items that rise on the indices used, ordered and balanced tables with exactly those node counts and one level more |
| AvlHeight.ProbeFits | lib/avl.c:36-53 | the cache of insertion suffices for every table of height at most 32 |
| AvlHeight.DeleteFits | lib/avl.c:167-228 | the stacks of deletion suffice exactly when the search passes fewer than 32 nodes, always for a present item or height below 32 |
| AvlHeight.DeleteOverflows | lib/avl.c:167-189 | from any items that rise on the indices used, an ordered, balanced table for which deleting a missing item pushes one entry more than the height |
| PoolList.FreedIsLocal | mm/mm.c:47-139 | marking a block idle and merging all idle runs changes only the block and its idle neighbours |
| PoolList.FreedSums | mm/mm.c:47-139 | freeing removes exactly that block from the live ones and gains its payload and one header for each neighbour it merges with |
| PoolList.FreedWellformed | mm/mm.c:37-172 | freeing keeps the tiling, leaves no idle neighbours and keeps the last block idle |
| PoolList.SplitSums | mm/mm.c:226-242 | allocation adds exactly one live block and takes its size and a header from the idle sum |
| PoolList.SplitThenFree | mm/mm.c:226-242 | freeing the block just split off restores the list |
| PoolList.Ordered | mm/mm.c:6-24 | headers and payloads of different blocks never overlap and lie inside the pool |
| PoolList.NothingLive | mm/mm.c:14-20 | a well-formed pool with nothing live is its one initial idle block |
| PoolList.RunWellformed | mm/mm.c:26-242 | every run of allocations and releases keeps the pool tiled, without idle neighbours and with an idle tail |
| PoolList.ReleaseAll | mm/mm.c:37-172 | every order of the live blocks is a run of releases, and it ends with the one initial idle block |
| PoolList.ReleasesEnd | mm/mm.c:37-172 | a run of releases ends in one way only |
| PoolList.EveryByte | mm/mm.c:6-24 | idle bytes, live bytes and headers add up to the pool |
| PoolMemory.HeldReplace | mm/mm.c:47-139 | replacing a stretch of the list and rewriting only the headers at its edges leaves the memory recording the new list, with `pre` and `next` inverse |
| PoolHeap.Heap.Search | mm/mm.c:176-225 | null exactly when no idle block holds the request and a header; else the tail if it fits, else the first of the smallest that fit |
| PoolList.BestUnique | mm/mm.c:182-220 | the choice among the blocks that fit is unique |
| PoolHeap.Heap.Carve | mm/mm.c:226-242 | the header writes of the split leave the memory recording the split list, and nothing outside the pool changes |
| PoolHeap.Heap.Release | mm/mm.c:39-163 | the branches leave the memory recording the merged list exactly when line 97 is corrected or the block is not pinched; the gain is the growth of the idle sum; as written the one stale link is named |
| PoolHeap.EffectHeld | mm/mm.c:91-98 | what the merge branches write records the merged list exactly when the block is not pinched or the link is mended |
| PoolHeap.PinchedIsReached | mm/mm.c:91-98 | a run from a fresh pool reaches a pinched live block |
| PoolChain.GuardSkipsOnlyFull | mm/mm.c:30-34 | a pool whose counter covers its idle bytes and fails the guard has no block that fits |
| PoolChain.Chain.AddPool | mm/mm.c:6-24 | a new pool is one idle block at the end of the chain, and the others are untouched |
| PoolChain.Chain.Malloc | mm/mm.c:26-35 | the first pool that passes the guard decides; failure changes nothing, success splits its best block and pays from its counter; a request of no bytes fails; while counters cover the idle bytes no pool passed over could have served the request, and while they are exact a pool that decides and fails has the bytes but not in one block |
| PoolChain.Chain.BestFit | mm/mm.c:174-243 | null exactly when no block of the pool fits, with nothing changed; else its best block is split |
| PoolChain.Chain.Free | mm/mm.c:37-172 | a live block is merged into its list whichever pool it is freed through, the counters still sum to the idle bytes, and the chain stays valid exactly when line 97 is corrected or the block is not pinched |
| PoolChain.MallocKeepsExact | mm/mm.c:240-240 | when every pool's counter equals its idle bytes, it does after an allocation |
| PoolChain.FreeKeepsExact | mm/mm.c:45-139 | it does after a free exactly when the block was freed through the pool that owns it |
| PoolChain.MallocThenFree | mm/mm.c:26-242 | freeing what was just allocated restores every list and counter, also with line 97 as written |
| Bits.ShiftReads | lib/bits.c:33-37 | the unmasked read is 0, 1 or the bit exactly when no higher bit of the byte is set |
| Bits.Test0AndSet | lib/bits.c:45-53 | sets the bit exactly when it and all higher bits of its byte are clear |
| Bits.Test1AndSet | lib/bits.c:54-62 | clears the bit exactly when it is the highest one set in its byte |
| Bits.OnesTests | lib/bits.c:33-62 | in a byte 2^k-1 the first test succeeds exactly from k on, the second exactly for k-1 |
| Bits.ReadsLevel | lib/bits.c:33-37 | in a filled map the unmasked read is 0 exactly for an index that is not taken |
| Bits.FilledStep | lib/bits.c:10-19 | setting the first free bit or clearing the highest set one keeps every byte of the form 2^k-1 |
| Frames.FrameMap.constructor | mm/page.c:26-34 | exactly the reserved frames are taken and every byte is 2^k-1 |
| Frames.FrameMap.Alloc | mm/page.c:48-60 | the first frame past the reserved ones that is not taken, never a live one, and 0 exactly when all are taken |
| Frames.FrameMap.Free | mm/page.c:62-66 | takes effect exactly when the frame is the highest taken in its byte; every other frame keeps its state |
| Cache.Cache.constructor | kernel/cache.c:12-27 | one bit per block rounded up to bytes, all free, blocks inside the pool |
| Cache.Cache.Malloc | kernel/cache.c:36-60 | the address of the first block that is not taken, never a live one, inside the pool and apart from every live block, and null exactly when all are taken |
| Cache.Cache.Free | kernel/cache.c:62-70 | any address inside a live block finds it, and the free takes effect exactly when it is the highest taken in its byte |
| Cache.Cache.AddressSteps | kernel/cache.c:53-53 | the first block is at the start of the pool and each next one a block size further |
| Cache.Cache.AddressApart | kernel/cache.c:53-53 | two blocks do not overlap and every block lies inside the pool |
| PageTables.ItemRoundTrip | include/kernel/mm.h:89-105 | page number and attributes are read back from an entry made of them |
| PhysMem.WordIsLittleEndian | mm/page.c:129-155 | an entry is read from its four bytes low byte first |
| PhysMem.WordSet | mm/page.c:140-155 | an entry reads back as written and no other entry of the frame changes |
| PageTables.SpaceSeparates | mm/page.c:143-155 | two pages of a space never share a frame and no data frame is a table or the directory |
| PageTables.AddTable | mm/page.c:131-141 | hanging a zeroed free frame as a page table changes no translation and keeps uses apart |
| PageTables.AddPage | mm/page.c:146-156 | mapping a free frame changes that page's translation alone and keeps uses apart |
| PageTables.VainTable | mm/page.c:131-141 | with no frame left the directory entry is written and changes no translation |
| PageTables.VainPage | mm/page.c:146-156 | with no frame left the word where the page's entry would be, in its table or in frame 0, is written and changes no translation |
| PageTables.DirWords | mm/page.c:131-141 | writing the directory entry of a missing table changes that word and the table word of no page |
| PageTables.PageWords | mm/page.c:146-155 | writing a page's entry changes that word, no directory entry and no other page's word |
| PageNeed.NeedNext | mm/page.c:125-156 | the need of a range is the cost of its first page and the need of the rest once that page is provided for |
| PageNeed.FirstShort | mm/page.c:125-156 | when the frames do not cover the need, some page of the range has no frame and its need is not covered |
| Paging.Machine.MapPage | mm/page.c:127-156 | one turn of the loop, with any number of free frames: earlier translations stay, the page is served and nothing else moved exactly when the frames cover its cost, the frames left are the difference, a new table entry has the attributes asked for and a new directory entry 7, every other word is kept, and a page whose table could not be had is entered in frame 0 |
| Paging.Machine.AllocSpace | mm/page.c:109-159 | with any number of free frames: all pages of the range are mapped exactly when the frames cover the exact need, each page exactly when the need up to it is covered, the frames left are the difference, earlier translations and data frames stay, only free nonreserved frames are taken, injectivity and the separation of tables from data are kept, frame 0 is untouched when the need is covered, pages that gained a frame have the attributes asked for, directory entries that gained a table have attributes 7, and every other entry keeps its word |
| Paging.NewPagesTranslate | mm/page.c:138-155 | with the present bit asked for, a page that gained its frame is translated to it by the processor, if its directory entry is new or was present |
| Paging.OldPagesTranslate | mm/page.c:131-156 | what the processor translated before it translates alike afterwards |
| Paging.StrayWord | mm/page.c:143-155 | for a page without a table one word of frame 0 is overwritten with the attributes, and only if it named no page |
| Paging.Machine.Cp2User | mm/page.c:161-213 | the bytes before the first unmapped address are written where they translate to, no other byte of memory changes, and the result is the size or 0; a range that wraps does nothing |
| Paging.Machine.CpFromUser | mm/page.c:215-246 | reads the bytes of the mapped range, or stops with 0 at the first unmapped address, and at once when the range wraps |
| UserCopy.PutRead | mm/page.c:207-208 | a byte written at one user address is read back there and changes no other user byte |
| UserCopy.CopyRoundTrip | mm/page.c:161-246 | what was copied to a mapped user range is what is copied back, whatever page boundaries it crosses |
| UserCopy.UserByteTranslated | mm/page.c:187-208 | a byte of user memory is the byte at the physical address the processor translates its address to |
| KernelMap.Boot.BuildTables | mm/page.c:35-43 | every address below the memory size translates to itself, for any multiple of 4 MB up to 4 GB, and no other frame is written |
| KernelMap.Identity | include/kernel/mm.h:71-87 | the flat array of table words and the two-level split of a page number agree |
| DirectoryWalk.FoldAppend | fs/mfs/mfs.c:644-674 | walking two stretches of slots one after the other is walking them as one |
| DirectoryWalk.FirstVerdict | fs/mfs/mfs.c:655-671 | the first verdict that is not to go on ends the walk: done and a write that works succeed, abort and a write that fails do not, and the slots behind are untouched |
| DirectoryWalk.RewriteAll | fs/mfs/mfs.c:665-668 | a callback that rewrites each slot and goes on rewrites all |
| DirectoryStore.Directory.WalkSector | fs/mfs/mfs.c:652-672 | the inner loop over the buffered sector, with its writes back, is the fold over the sector's slots |
| DirectoryStore.Directory.Each | fs/mfs/mfs.c:629-676 | for any callback that only changes slots it asks to write, the sector and slot loops are the fold over the readable slots as one flat sequence, and no sector outside the eight of the cluster changes |
| DirectoryStore.Directory.SlotPlace | fs/mfs/mfs.c:648-654 | slot 8q+k is slot k of sector 8 times the cluster plus q |
| DirectoryStore.Directory.RightPlace | fs/mfs/mfs.c:648-654 | slot 8q+k is writable exactly when sector 8 times the cluster plus q is |
| DirectoryStore.Directory.SlotsEnd | fs/mfs/mfs.c:648-651 | there are 64 slots when all eight sectors can be read, and otherwise those before the first that cannot |
| DirectoryStore.OtherCluster | fs/mfs/mfs.c:648-668 | what is done in one cluster leaves the slots of a directory in another alone |
| DirectoryMap.SearchFolds | fs/mfs/mfs.c:713-723 | the search callback, folded, finds the first used slot with the name and changes nothing |
| DirectoryMap.MakeFolds | fs/mfs/mfs.c:678-691 | the creating callback, folded, fills exactly the first empty slot, and counts up even when the write fails |
| DirectoryMap.ItemFolds | fs/mfs/mfs.c:725-738 | the indexing callback, folded, picks the used slot at that position in slot order |
| DirectoryMap.SameNameMeans | lib/string.c:69-74 | the comparison of two name fields is equality of names, and of the padding byte when the name fills its field |
| DirectoryMap.FindIsEntries | fs/mfs/mfs.c:713-723 | searching is looking up the name-to-node map |
| DirectoryMap.TouchMeans | fs/mfs/mfs.c:252-273 | a used name is left alone and reported by its type; a new one becomes one entry of the map in the first empty slot with all other slots intact; a full directory changes nothing |
| DirectoryMap.TouchLands | fs/mfs/mfs.c:252-273 | after a valid touch the map holds a file under the name: the one it held, or a blank one with the given creation date and time |
| DirectoryMap.TouchAgain | fs/mfs/mfs.c:259-270 | touching a name again, with any date and time, is valid and changes nothing |
| DirectoryMap.TouchConsistent | fs/mfs/mfs.c:678-691 | names stay unique and the size exact exactly when the touch does not make a nameless node or fail to write one |
| DirectoryMap.TouchBesideHidden | fs/mfs/mfs.c:650-651 | behind an unreadable sector, names stay unique exactly when the unread slots do not hold the name |
| DirectoryMap.RunConsistent | fs/mfs/mfs.c:252-273 | over any series of touches names stay unique, the size exact, no entry is lost or changed, and every name is there unless the directory is full |
| DirectoryStore.Directory.Touch | fs/mfs/mfs.c:252-273 | both walks on the device give what the touch means on the flat slots, every sector outside the cluster is unchanged, the node the map held comes back, and a valid touch leaves a file under the name |
| DirectoryStore.Directory.ReadAttrib | fs/mfs/mfs.c:515-530 | the node the map holds under the name, or none; nothing changes |
| DirectoryStore.Directory.ReadItem | fs/mfs/mfs.c:498-513 | positions 0 and up enumerate exactly the used slots in order; nothing changes |
| CStrings.StrCmp | lib/string.c:47-52 | the difference at the first position where the texts differ |
| CStrings.OrderZero | lib/string.c:47-52 | zero exactly for equal texts |
| CStrings.FieldsEqual | lib/string.c:69-74 | two fields compare equal exactly when their texts do and, for full fields, the characters behind them |
| CStrings.FieldText | lib/string.c:76-82 | the field holds the text cut to its size |
| Decimal.OrderIsNumeric | lib/string.c:47-52 | among digit strings of one length, string order is numeric order, whatever follows the digits |
| Decimal.Atoi | lib/stdlib.c:8-42 | the decimal value clamped to 32 bits, or the limit when there are more than ten digits |
| Decimal.ParsedIsClamped | lib/stdlib.c:22-34 | the result is the clamped value exactly when there are at most ten digits or the number reaches the limit; so for every string without a leading zero |
| Decimal.SignsParse | lib/stdlib.c:14-21 | a leading plus changes nothing and a leading minus negates every number inside the limits |
| Decimal.TrailingText | lib/stdlib.c:22-41 | what follows the digits does not matter |
| Decimal.LeadingZerosClamp | lib/stdlib.c:22-34 | a one behind ten or more zeros is parsed as the limit |
| Decimal.Itoa | lib/stdlib.c:44-69 | the decimal notation of every 32-bit number, the least included |
| Decimal.PrintedOnce | lib/stdlib.c:44-69 | the notation is unique and has at most eleven characters |
| Decimal.ParsePrinted | lib/stdlib.c:8-69 | parsing the printed text gives the number back, for every 32-bit number |
| Path.ComponentsJoin | lib/stdlib.c:205-254 | the components of a path, joined with slashes, are the path |
| Path.ComponentsOfJoin | lib/stdlib.c:205-254 | every list of slash-free names is what its joined path splits into |
| Path.Detach | lib/stdlib.c:205-254 | for every path and all bytes behind its terminator: component `index`, cut to `max`, is laid over the buffer; the flag says whether another follows and the failing cases are the empty ones, an index past the end, a path without a leading slash and a cut name before an empty last component, except that a slash behind the terminator sets the flag, and fails the call if a zero follows it, where the scan gets there; a call that does not fail returns the length of the name it wrote |
| Path.GivenIsWanted | lib/stdlib.c:229-249 | the calls give what the path alone says, for every index, exactly when the text behind the terminator has no slash; for an index inside the path the exact condition |
| Path.SlashBehind | lib/stdlib.c:229-249 | on the path `/a` with `/b` behind its terminator, component 0 is reported as not the last |
| Path.TrailingSlash | lib/stdlib.c:229-253 | with a slash at its end the one name of a path is reported as not the last, and the call fails if the name was cut |
| Path.Walk | kernel/kmodel.c:490-507 | for every number of steps: one lookup for each component in order, up to the first that fails, each with the name the buffer then holds; with a slash behind the terminator, and a last component of at most fourteen characters, the last name is looked up until that fails |
| Path.SeenIsExact | kernel/kmodel.c:490-507 | the lookups get the components themselves exactly when none is longer than fourteen characters or shorter than the one before it |
| Path.StaleTail | kernel/kmodel.c:490-507 | a shorter name after a longer one is looked up with the longer one's tail |

## Left out

- `avl_insert`, `avl_replace`: they compare a data pointer with a node pointer.
- `pmap`, `publicmap16M2to32M`, `getitem`, `setitem`: the masks do not address the intended entry; `allocspace` has the same idea.
- `strncpfromuser`, `strncp2user`: the loops of the modelled copies, ended by a terminator.
- `itox`, `atoll`, `lltoa`, `lltox`, `vsprintf`: easy members, reused thresholds or stubs.
- `mfs_rm`, `mfs_rmdir`, `mfs_rename`, `mfs_mkdir`, `mfs_mknode`, `mfs_mkfs` and the close paths: inverted name comparisons and a stubbed cluster allocation.
- The node tree, device table and I/O regions of kernel/kmodel.c, beyond the path walk.
- Locks: each locked section is one sequential step.
- Port I/O, interrupts, boot, consoles and assembly.
- Null arguments of `mm_inipool`, `mfs_function` and `detach_node`, and `mm_appendpool`'s walk to the end of the chain, which is the end of a sequence here.
- C integer conversions in mm/mm.c: sizes and addresses are mathematical integers; the comparison of a signed counter with an unsigned sum is the mathematical one.
- Address and entry masks of include/kernel/mm.h are division and remainder on numbers, not bit operations.
- Free frames and cache memory are taken to read as zero, which mm/page.c:132-141 and kernel/cache.c:25 rely on but do not establish.
- What lies behind the bytes given to Path.Detach reads as zero; the scan stops at the first zero.
- Clocks: dates and times are parameters. Device errors: the sectors a driver refuses are fixed during one call.
- `isdigit` is a function of one character; the macro of include/stddef.h:56 evaluates its argument twice at lib/stdlib.c:22.
- AvlTable.Table.Probe: asks that the cached directions fit the array `da`; the data pointer of a node is never rewritten.
- Paging.Machine.AllocSpace: asks that the range does not end in the last page, where the source's loop never ends, and that the attributes fit the low twelve bits of an entry.
- DirectoryStore.Directory.Each: asks that a callback which changes its slot asks for it to be written, as every callback of the source does.
