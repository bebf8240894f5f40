# Models of a systems-programming course repository

The repository holds independent C programs: an audio recoder (hw1), a grade collation program
(hw2), a heap allocator (hw3), a print spooler (hw4) and a transactional object store (hw5). This
project models the algorithmic core of each in Dafny and proves what its headers, comments and tests
promise. `dafny verify dfyconfig.toml` checks everything.

## The heap allocator (hw3/src/sfmm.c)

Memory is a sequence of 64-bit rows plus one header node per size class. A row is a header or
footer (`Info`), a link of a free block, or client bytes; every write of the C code is a row write in
the same order. Sizes are in rows of 8 bytes. `sf_mem_grow()` appends one zeroed page of 512 rows up
to an arbitrary bound `maxPages`, or fails. NULL is 0, and a client's pointer is the index of the row
after the header.

`Heap.At(X)` is the invariant: the tags describe blocks that tile the heap from byte 40 to the
epilogue (`HeapLayout.Physical`), no two free blocks touch, and every free block outside `X` stands
once on the ring of its own size, rings being well linked both ways and the sizes strictly increasing
(`HeapState.Good`). `X` names the blocks a call has taken off and not filed yet; between calls it is
empty. One lemma, `HeapLayout.CarvedPhysical`, carries split, coalescing, growth and shrinking.
`HeapEffects` says block by block what each call does: which block serves a request and where it is
cut, what growth adds, what freeing merges and what a shrink gives back. `AllocatorRuns` runs arbitrary
scripts of calls and stores against the client's own bookkeeping, byte by byte; at its end no allocated
block has room to be cut.

The boundary tags are modelled exactly as written. The free-list code does not keep the lists that
hw3/include/sfmm.h:162-191 describes; the model uses the correct splice of lines 447-452 and a full
unlink everywhere. What was repaired, and what the code does instead (module `FreeListFaults`):

- the pops at lines 98 and 176 leave the successor's `prev` link stale;
- the inserts at lines 104-107, 213-216 and 271-274 never set the forward link;
- the class searches at lines 211-224 and 269-282 never test the last class (the one at 101-118 has
  the same shape, but a remainder's class is never the last);
- the class placement in the shrink of sf_realloc at lines 639-672 appends a class smaller than the only
  one: with the whole first page allocated, `sf_realloc(p, 4008)` after `sf_malloc(4040)`. The placements
  at lines 227-250, 285-308 and 459-504 have the same shape and are right, because the class of the first
  page is opened by the first call and never closed: growth files at least a page, and while that class
  is the only one sf_free can free only the whole page (`GrowthPlacement`, `FreePlacement`);
- a growth that misses the last class opens it a second time.

## Sorting rosters (hw2/src/sort.c)

`Quicksort` keeps `partition` and `sorttable` on an array for any total preorder. `partition` may
return `low`, so `sorttable` may recurse on the range it was given; the proof shows that this happens
only if the pivot is the unique minimum, that the pass then rotates the range by one place, and that
the next pivot splits. `RosterSort` has the comparators, the table, the relinking of `next` or `cnext`
and the duplicate check.

## Transactions and the client registry (hw5/src/transaction.c, hw5/src/client_registry.c)

`TransactionAbort` is the abort cascade on its own. `TransactionRuns` and `ClientRegistry` are state
machines whose steps are the atomic accesses of any number of threads; their theorems hold at every
moment of every run. Two preconditions come from hw5/include/store.h: dependencies are added to
pending transactions only, on transactions with smaller ids. A transaction is not committed by its
owner after a client asked for its abort; `CommitAfterAbort` shows why. The membership scan at
hw5/src/transaction.c:244-250 never advances `d` and is modelled as the search it is meant to be;
`ScanEnds` says when the code as written ends. `TransactionCascade` says what a cascade has done when
it returns, whatever the other threads did, and `TransactionCalls` what every call has done when it
returns.

The mutexes can deadlock: trans_add_dependency takes t and then d < t, the cascade holds a transaction
and takes its dependents, which have larger ids. `TransactionDeadlock` takes any set of threads that wait
for each other and shows that both calls are in it, each waiting for the other; without an overlap of the
two, some call can always go on. `TransactionOverlap` gives the exact condition for one overlapping
pair, other threads being idle: trans_add_dependency(t, d) and trans_abort(d) can deadlock if and only if
t depends on d already, through pending transactions.

The client registry keeps its accounts for every descriptor but -1, which stands for a free slot in
the table and breaks them. `RegistryTable` shows that the table holds exactly the descriptors
registered and not yet unregistered, `RegistryProgress` that only a register at a full table waits
for good.

## Grade statistics (hw2/src/stats.c, normal.c, report.c)

The gradebook is a heap of linked nodes (`Gradebook`). `StatsLinks` threads the course roster once per
assignment through a list that is cyclic for a moment; `Frequencies` and `FrequencyTables` build and
rank the sorted bucket lists in place; `Quantiles` has percentile normalization and quantile
interpolation; `Moments` the sums, mean, variance and linear normalization; `Statistics` puts the passes
together, from buildstats to do_moments. A section's minimum and maximum stay at its first grade
(hw2/src/stats.c:281-285 compares and stores in the class record twice). Grades are exact reals, so
rounding of `float` and `double` is not modelled. The square root is a parameter: any function with
non-negative values whose squares are the arguments.

## The grade file (hw2/src/write.c, hw2/src/read.c)

`CourseText` is the printed form, `CourseReader` the meaning of every reader function for every input,
`CourseFiles` the imperative reader with its 64-byte token buffer and the writer, both proved against
them, and `CourseRoundTrip` the theorem: reading a printed course gives `Reread(c)` and exactly
`CourseComplaints(c)` error reports, two for every LINEAR policy and one for every USENORM score outside
the range of its policy; that is `c` without an error report exactly when the course uses no LINEAR policy, no group without a policy and
no USENORM score. `ScannedNumbers` and `CourseLanguage` go beyond what is printed: numbers in any decimal
notation, any separators, blank lines and comments, and an assignment's lines and keywords in any
order. A course is a value here; the nodes it is made of are not. Numbers are reals printed
by `%f` with six decimals.

## The print spooler (hw4/src/main.c)

`Spooler` is the interactive command loop with its dispatch pass, `PrinterSets` the power-of-two sums
that stand for sets of printers, `SpoolerCommands` what a user sees of both: first come, first served,
and what each command changes. Commands that leave the loop body by `continue` skip the pass.

## The audio recoder (hw1/src/hw1.c, hw1/src/myrand.c)

`AudioFrames` gives the meaning of speeding up, slowing down and encrypting a stream of frames,
`AudioStreams` the same frame by frame and byte by byte, `Audio` the loops over the three frame buffers, here arrays of eight cells (the buffers at
hw1/include/const.h:46-48 have room for two `int`s only). Bytes and samples are bit vectors.

## Model

| member | source | states |
|---|---|---|
| HeapLayout.BlockBefore | hw3/src/sfmm.c:381-386 | walking the headers reaches every later boundary, so the block before it exists |
| HeapLayout.EveryRowCovered | hw3/include/sfmm.h:96-161 | every row between prologue and epilogue lies in exactly one block |
| HeapLayout.CarvedPhysical | hw3/src/sfmm.c:72-96 | replacing the blocks of a region by another correctly tagged tiling keeps the whole heap well formed |
| HeapLayout.CarvedCoalesced | hw3/src/sfmm.c:367-440 | no two free blocks touch after a region is rewritten |
| TagWrites.RoundingIsLeast | hw3/src/sfmm.c:57-71 | the rounded size holds the request, and every legal block size that holds it is at least as large, so rounding never exceeds the class |
| TagWrites.SplitRetags | hw3/src/sfmm.c:73-97 | the split's writes leave an allocated front and a free rest |
| TagWrites.WholeRetags | hw3/src/sfmm.c:151-176 | serving the whole block sets the next block's prev bit and keeps the tags right |
| TagWrites.PrevFooter | hw3/src/sfmm.c:381-386 | a clear prev bit means the row before is the footer of the free block before |
| TagWrites.FreeRetags | hw3/src/sfmm.c:367-440 | freeing and merging both ways leaves one correctly tagged free block |
| TagWrites.GrowRetags | hw3/src/sfmm.c:189-211 | a new page merges with a free block at the end and moves the epilogue, whose prev bit is clear because pages are zeroed |
| TagWrites.ShrinkRetags | hw3/src/sfmm.c:569-613 | giving back the tail, merged with a free next block, keeps the tags right |
| TagWrites.InitPhysical | hw3/src/sfmm.c:20-33 | the first page is one free block between prologue and epilogue |
| TagWrites.CopyBytes | hw3/src/sfmm.c:560 | exactly the first n bytes are copied, bytes of a last part row included |
| FreeLists.UnlinkKeepsRings | hw3/src/sfmm.c:395-396 | unlinking takes one block off its list and leaves every other list as it was |
| FreeLists.SpliceKeepsRings | hw3/src/sfmm.c:447-452 | the four writes of the splice put a block in front of its list |
| HeapState.RetagEffect | hw3/src/sfmm.c:367-440 | what one rewriting of a region does to tags, lists, live set and payloads together |
| HeapState.NewClass | hw3/src/sfmm.c:459-504 | opening a size class in its place keeps the sizes increasing |
| HeapState.UnlinkedGood | hw3/src/sfmm.c:395-396 | unlinking keeps the whole invariant, the block being unfiled |
| HeapState.SplicedGood | hw3/src/sfmm.c:447-452 | filing keeps the whole invariant |
| Allocator.Heap.Unfile | hw3/src/sfmm.c:395-396 | the block leaves its list; blocks and payloads stay |
| Allocator.Heap.File | hw3/src/sfmm.c:442-504 | the block ends on the list of its size, opened in order if it is new |
| Allocator.Heap.Take | hw3/src/sfmm.c:62-186 | the first block of a class serves a request: it is cut exactly when the rest makes a block, the rest is one free block behind it, and every other block is as before |
| Allocator.Heap.Free | hw3/src/sfmm.c:319-507 | the freed block becomes one free block with its free neighbours, all other blocks and payloads are untouched, and the invariant holds again |
| Allocator.Heap.AbsorbNext | hw3/src/sfmm.c:401-418 | a free next block, and only that, is taken off its list for the merge |
| Allocator.Heap.AbsorbPrev | hw3/src/sfmm.c:381-399 | a free previous block, and only that, is taken off its list for the merge |
| Allocator.Heap.Init | hw3/src/sfmm.c:18-54 | the first page: one free block of 4096 - 48 bytes on its list, the only class |
| Allocator.Heap.Extend | hw3/src/sfmm.c:189-311 | one more page enlarges the top free block by a page and changes no other block; exactly what can be served afterwards |
| Allocator.Heap.Search | hw3/src/sfmm.c:57-62 | finds the smallest non-empty class that fits, or there is no free block that fits |
| Allocator.Heap.Serve | hw3/src/sfmm.c:57-317 | terminates on pages left; the blocks end as if the least pages that suffice were added at once and one block served; NULL exactly when all pages are used up and no free block fits |
| Allocator.Heap.Malloc | hw3/src/sfmm.c:13-317 | best fit when something fits; else the block starts where the top free block did, and the heap has the least number of pages that suffices; the block is cut when the rest makes a block, and no other block or payload changes; NULL exactly when nothing can serve |
| Allocator.Heap.Accepts | hw3/src/sfmm.c:320-354 | for a pointer behind a block's header the abort() checks pass exactly when that block is allocated |
| Allocator.Heap.Realloc | hw3/src/sfmm.c:509-687 | the first min(old, new) bytes survive; a shrink gives back its tail exactly when that makes a block, a growth serves a new block and frees the old one; all other blocks and payloads are untouched, failure changes nothing live |
| Allocator.Heap.Grow | hw3/src/sfmm.c:559-562 | the payload moves with all its bytes to a block served as by sf_malloc, and the old block is freed |
| Allocator.Heap.Shrink | hw3/src/sfmm.c:563-672 | the block keeps its place and its first bytes; exactly when the tail makes a block it becomes free, together with a free next block, and no other block changes |
| HeapEffects.ServedTight | hw3/src/sfmm.c:72-97 | serving a request leaves no allocated block with room for another block |
| HeapEffects.GaveBackTight | hw3/src/sfmm.c:566-613 | nor does a shrink |
| HeapEffects.MovedTight | hw3/src/sfmm.c:553-562 | nor does a growth |
| HeapEffects.GrownTwice | hw3/src/sfmm.c:189-311 | growing page by page is growing by all pages at once |
| AllocatorRuns.Do | hw3/src/sfmm.c:13-687 | one call keeps the heap equal to the client's own bookkeeping, byte for byte |
| AllocatorRuns.Run | hw3/src/sfmm.c:13-687 | every script of calls and stores ends with exactly the chunks and bytes the client expects, and with no allocated block that could have been cut |
| HeapTheorems.FreeListsAgree | hw3/include/sfmm.h:163-191 | each free block stands on exactly one list, once, the one for its size, and nothing else stands on any |
| HeapTheorems.FollowNext | hw3/include/sfmm.h:163-177 | k steps along next reach node k, and k steps along prev lead back |
| HeapTheorems.LivePayloads | hw3/src/sfmm.c:57-186 | live payloads are 16-aligned, inside the heap, long enough and disjoint |
| HeapTheorems.RowsAreBlocks | hw3/include/sfmm.h:96-161 | every row belongs to exactly one block |
| HeapTheorems.AllFreeIsOneBlock | hw3/src/sfmm.c:24-33 | with nothing live the heap is one block of pages * 4096 - 48 bytes |
| HeapTheorems.FreeAll | hw3/src/sfmm.c:319-507 | freeing everything in any order leaves that block |
| FreeListFaults.PopBreaksList | hw3/src/sfmm.c:98 | the pop as written never leaves a well-linked list |
| FreeListFaults.UnlinkAfterPop | hw3/src/sfmm.c:176 | a later unlink goes wrong exactly for the new first block |
| FreeListFaults.InsertLosesBlock | hw3/src/sfmm.c:104-107 | the inserted block is never reached along next |
| FreeListFaults.SearchSkipsLast | hw3/src/sfmm.c:211-224 | the class is found exactly when it is there and not the last |
| FreeListFaults.SplitSearchIsRight | hw3/src/sfmm.c:101-118 | for a remainder the same search is right |
| FreeListFaults.GrowthPlacement | hw3/src/sfmm.c:227-250 | in every state with the first page's class the new class lands in order |
| FreeListFaults.FreePlacement | hw3/src/sfmm.c:459-504 | so does the class of any freed and merged block |
| FreeListFaults.ShrinkPlacement | hw3/src/sfmm.c:634-672 | a shrink keeps the order exactly when the first page's class is not the only one |
| FreeListFaults.TakeFirstPage | hw3/src/sfmm.c:13-176 | sf_malloc(4040) as the first call ends with the whole page live and that class alone |
| FreeListFaults.SplitPlacement | hw3/src/sfmm.c:122-144 | a remainder's class always finds its place |
| FreeListFaults.LastClassTwice | hw3/src/sfmm.c:269-308 | a class missed by the search is opened twice |
| FreeListFaults.ShrinkPlacementFails | hw3/src/sfmm.c:639-672 | the class sizes of that heap end out of order when 4 rows are cut off |
| Quicksort.Partition | hw2/src/sort.c:100-127 | shuffles the range, splits it strictly unless the pivot is the unique minimum, and then rotates it left by one |
| Quicksort.RotationUnsticks | hw2/src/sort.c:87-127 | after such a pass the next pivot is not a unique minimum |
| Quicksort.SortTable | hw2/src/sort.c:87-98 | terminates for every array and total preorder; the range ends sorted, a permutation, the rest untouched |
| Quicksort.Merged | hw2/src/sort.c:87-98 | sorting both sides of a partition sorts the range |
| RosterSort.ComparatorsArePreorders | hw2/src/sort.c:129-150 | the three comparators are total preorders |
| RosterSort.ComparatorsMean | hw2/src/sort.c:129-150 | by name means surname and then name in dictionary order, by id dictionary order, by score the greatest first |
| RosterSort.Table | hw2/src/sort.c:56-70 | the table holds exactly the students of the chain |
| RosterSort.Relink | hw2/src/sort.c:72-80 | the chain leads through the table in order and ends in NULL |
| RosterSort.SortRoster | hw2/src/sort.c:47-81 | a NULL-terminated sorted permutation of the same nodes; the other chain is untouched |
| RosterSort.SortRosters | hw2/src/sort.c:37-45 | the course roster and every section roster are sorted |
| RosterSort.NewName | hw2/src/sort.c:152-161 | in a name-sorted roster a student adds a name unless the one before has it |
| RosterSort.CheckForDups | hw2/src/sort.c:152-161 | warns exactly (students minus distinct names) times |
| TransactionAbort.Manager.Abort | hw5/src/transaction.c:224-257 | terminates; exactly the transaction and its pending transitive dependents end aborted |
| TransactionAbort.ReachedChanged | hw5/src/transaction.c:231-252 | along a path of pending dependents everything changes |
| TransactionAbort.ScanEnds | hw5/src/transaction.c:237-250 | the scan as written ends exactly when the id is among the first two entries or there is at most one |
| TransactionAbort.ScanHangs | hw5/src/transaction.c:244-250 | a list of three on which it never ends |
| TransactionRuns.NextKeepsInv | hw5/src/transaction.c:63-257 | every step of every thread keeps the invariant, final statuses and dependencies |
| TransactionRuns.RunInv | hw5/src/transaction.c:63-257 | it holds at every moment of every run |
| TransactionRuns.RunStable | hw5/src/transaction.c:140-257 | final statuses are final and dependencies are never dropped |
| TransactionRuns.CommittedForGood | hw5/src/transaction.c:173-209 | a committed transaction has only committed dependencies, ever after |
| TransactionRuns.DependentsOfAborted | hw5/src/transaction.c:183-204 | no dependent of an aborted transaction is committed at any moment |
| TransactionRuns.OnlyClientsHalt | hw5/src/transaction.c:226-227 | exit(-1) is met only when a client aborts a committed transaction |
| TransactionRuns.CascadeIsSafe | hw5/src/transaction.c:231-252 | the cascade meets no committed dependent and waits for no mutex of its own |
| TransactionRuns.CommitOutcome | hw5/src/transaction.c:183-204 | with final dependencies a commit returns after at most two passes with the verdict on them |
| TransactionRuns.SomeCommitCanLeave | hw5/src/transaction.c:183-204 | if every pending transaction is in its commit loop, the oldest can leave |
| TransactionRuns.CommitAfterAbort | hw5/src/transaction.c:173-209 | a commit after an abort leaves the transaction aborted exactly when a dependency is aborted |
| TransactionRuns.AbortedIsCommitted | hw5/src/transaction.c:177-181 | without dependencies such a commit turns aborted into committed |
| TransactionRuns.CascadeCanDeadlock | hw5/src/transaction.c:140-143 | a run in which trans_add_dependency and the cascade wait for each other |
| TransactionDeadlock.StuckIsBlocked | hw5/src/transaction.c:140-257 | a call under way can go on exactly when the mutex it has to take next is free |
| TransactionDeadlock.DeadlockNeedsBoth | hw5/src/transaction.c:140-257 | every set of threads waiting for each other has a trans_add_dependency waiting for a cascade and a cascade waiting for a trans_add_dependency |
| TransactionDeadlock.SomeCallGoesOn | hw5/src/transaction.c:140-257 | at every moment of every run at which the two calls do not overlap, some call under way can go on |
| TransactionDeadlock.DeadlockForGood | hw5/src/transaction.c:140-257 | a deadlock stays, whatever the other threads do |
| TransactionOverlap.CascadeStep | hw5/src/transaction.c:231-252 | whether t is still ahead of the cascade does not change from step to step until the call for d returns |
| TransactionOverlap.DeadlocksExactly | hw5/src/transaction.c:140-257 | at any moment of an overlap with d held by the cascade and t by the other thread, the two can deadlock if and only if t is still ahead of the cascade |
| TransactionOverlap.OverlapDeadlocks | hw5/src/transaction.c:140-257 | trans_add_dependency(t, d) and trans_abort(d), begun together, can deadlock if and only if t already depends on d through pending transactions |
| TransactionCascade.PassedIsAborted | hw5/src/transaction.c:231-252 | in every run a list entry that a cascade has passed is aborted if it was a dependent at any earlier moment of the call |
| TransactionCascade.CallMissesNone | hw5/src/transaction.c:231-256 | in every run, when a cascade returns every transaction that depended on its transaction at the start is aborted |
| TransactionCalls.CommitReturns | hw5/src/transaction.c:173-209 | a commit step that returns leaves its transaction committed exactly when all dependencies are, aborted exactly when one is, never pending; one that does not changes nothing |
| TransactionCalls.CommitDecides | hw5/src/transaction.c:173-209 | so at every moment of every run, and what was decided stands for good |
| TransactionCalls.AddReturns | hw5/src/transaction.c:140-157 | exactly the dependency is added, to a transaction that is still pending |
| TransactionCalls.AbortReturns | hw5/src/transaction.c:224-257 | when an abort returns its transaction is aborted |
| TransactionCalls.CallsBegin | hw5/src/transaction.c:140-226 | a call can begin exactly when its first mutex is free and the client keeps the rules |
| ClientRegistry.StepKeepsInv | hw5/src/client_registry.c:35-107 | every step of every thread keeps the accounts of slots, items, lock and mutex |
| ClientRegistry.RegisterFindsSlot | hw5/src/client_registry.c:36-44 | in every run a register that passed the semaphore finds a free slot ahead of its scan |
| ClientRegistry.AccountsBalance | hw5/src/client_registry.c:35-70 | free slots are the semaphore plus the slots owed, used slots the items plus those owed, lock and mutex are exclusive |
| ClientRegistry.EmptyForGood | hw5/src/client_registry.c:73-97 | when the unlocked scan has returned the table is empty and stays empty |
| ClientRegistry.UnregisterMinusOne | hw5/src/client_registry.c:51-61 | creg_unregister(-1) breaks the accounts in every state that lets it past its semaphores and has a free slot |
| ClientRegistry.RegisterMinusOne | hw5/src/client_registry.c:35-48 | creg_register(-1) breaks them in every state that lets it past its semaphores |
| ClientRegistry.RegisteredAccounts | hw5/src/client_registry.c:39-44 | filling a free slot keeps the accounts exactly when the descriptor is not -1 |
| ClientRegistry.UnregisteredAccounts | hw5/src/client_registry.c:55-61 | freeing the matching slot keeps them exactly when the descriptor is not -1 |
| RegistryTable.StepOnTable | hw5/src/client_registry.c:35-107 | a register adds exactly its descriptor to the table, an unregister that finds its descriptor removes exactly that, no other step changes the table, and an unregister misses only what is not there |
| RegistryTable.TableIsRegistered | hw5/src/client_registry.c:35-70 | at every moment of every run the table holds each descriptor as often as it was registered and not yet unregistered |
| RegistryTable.MissesExactly | hw5/src/client_registry.c:55-66 | an unregister misses exactly when its descriptor is not registered |
| RegistryTable.ShutdownSees | hw5/src/client_registry.c:99-107 | a shutdown looks at every slot in turn, of a table that does not change meanwhile |
| RegistryProgress.GoesOn | hw5/src/client_registry.c:35-107 | a call under way goes on unless the semaphore it comes to is zero |
| RegistryProgress.CanBegin | hw5/src/client_registry.c:35-107 | every call can begin exactly when its first semaphore is not zero |
| RegistryProgress.StuckMeansFull | hw5/src/client_registry.c:35-107 | if no call under way can go on, it is one register that waits for a slot of a full table |
| StatsLinks.ThreadStudent | hw2/src/stats.c:111-119 | one student is appended to the roster threaded in this round |
| StatsLinks.LinkScores | hw2/src/stats.c:121-128 | exactly the student's scores for the assignment are redirected |
| StatsLinks.LinkRound | hw2/src/stats.c:108-130 | one round threads the whole roster and points every score of the assignment to the records of its class and section |
| StatsLinks.DoLinks | hw2/src/stats.c:93-132 | with any assignment at all the roster ends as the section rosters one after the other, with none it stays empty; all assignments are linked |
| StatsLinks.OwnStatistics | hw2/src/stats.c:82-90 | every score ends at the statistics of its own assignment and its student's own section |
| Frequencies.OneHistogram | hw2/include/stats.h:6-11 | a multiset of grades has only one table |
| Frequencies.CountedKeepsHistogram | hw2/src/stats.c:179-218 | counting one grade at its place gives the table of one more grade |
| Frequencies.CountScore | hw2/src/stats.c:172-218 | the returned list is the table of the grades with the new one |
| Frequencies.CountsAreRanks | hw2/src/stats.c:234-239 | the counts before a bucket are the grades below its score, all counts together all grades |
| Frequencies.RankTable | hw2/src/stats.c:234-246 | numless and numlesseq are the true numbers of grades below and at most the bucket's score |
| FrequencyTables.DoFreqs | hw2/src/stats.c:144-164 | every class and section table is the histogram of exactly the tallied grades that count for it, and tallied is their number |
| FrequencyTables.DoQuantiles | hw2/src/stats.c:225-249 | every class and section table is ranked |
| FrequencyTables.SectionsMakeClass | hw2/src/stats.c:134-142 | a class's grades are those of its sections together |
| FrequencyTables.ClassIsItsSections | hw2/src/stats.c:93-164 | the same from what do_links leaves, for every assignment |
| Statistics.AllTargeted | hw2/src/stats.c:82-142 | after do_links every score has a class and a section record to be counted in, and every class record's grades are those of its sections |
| Statistics.Count | hw2/src/stats.c:25-29 | every record ends as the ranked histogram, the sums and the moments of exactly the grades that count for it |
| Statistics.Compute | hw2/src/stats.c:23-29 | from buildstats' records on: roster, tables, ranks, sums, extremes and moments of the whole course, class tables being those of their sections; without an assignment nobody is enrolled |
| Statistics.BuildClasses | hw2/src/stats.c:33-80 | one fresh, empty class record per assignment, heading one section record per section, in order |
| Statistics.Statistics | hw2/src/stats.c:16-31 | the whole computation for every course the reader can leave |
| Quantiles.Percentile | hw2/src/normal.c:128-168 | the true percentile rank for every score up to the maximum, the score itself above it |
| Quantiles.NormalKeepsOrder | hw2/src/normal.c:151-168 | normalization keeps the order of all scores exactly when nothing is tallied or the percentile of the greatest tallied grade does not exceed that grade |
| Quantiles.NormalBreaksOrder | hw2/src/normal.c:158-168 | two scores that change order |
| Quantiles.RanksKeepOrder | hw2/src/normal.c:158-165 | up to the maximum, percentiles keep the order of scores and lie between 0 and 100 |
| Quantiles.PointsRise | hw2/src/report.c:134-141 | in a table ranks and scores rise strictly from rank 0 |
| Quantiles.InterpolateQuantile | hw2/src/report.c:123-154 | the loop computes the interpolated quantile and never divides by zero |
| Quantiles.QuantileWithin | hw2/src/report.c:123-154 | the result lies between the first and the last score |
| Quantiles.QuantilesRise | hw2/src/report.c:123-154 | it is nondecreasing in q for q >= 0 |
| Quantiles.QuantileAtRank | hw2/src/report.c:137-144 | at a bucket's own rank it is the bucket's score, but the last two buckets give the last score |
| Quantiles.QuantileBetween | hw2/src/report.c:137-153 | between the ranks of two neighbours it divides their scores as q divides the ranks |
| Quantiles.QuantileBeyond | hw2/src/report.c:145-147 | from the last rank but one on it is the last score |
| Quantiles.NegativeQuantile | hw2/src/report.c:137-144 | a negative q gives the last score |
| Moments.DoSums | hw2/src/stats.c:261-294 | valid, sum and sumsq of every record are the count, sum and sum of squares of its grades; a class record's min and max are the least and greatest grade, a section record's both its first grade |
| Moments.SectionExtremes | hw2/src/stats.c:281-285 | a section's recorded minimum and maximum are right exactly when all its grades are equal |
| Moments.SumOfSame | hw2/src/stats.c:286-290 | sums do not depend on the order of the grades |
| Moments.ClassSums | hw2/src/stats.c:251-259 | a class's sums are those of its sections together |
| Moments.DoMoments | hw2/src/stats.c:296-339 | every record's mean is that of its grades, its deviation the root of their sample variance; both are 0 without grades, and the deviation with a single one |
| Moments.RadicandIsVariance | hw2/src/stats.c:341-348 | n*sumsq >= sum^2; the radicand is the sample variance and zero exactly when all grades are equal |
| Moments.LinearNormalizes | hw2/src/normal.c:171-184 | normalizing a group by its own mean and deviation gives mean nm and deviation nd |
| PrintedNumbers.NumberBack | hw2/src/read.c:238 | scanning a number printed with six decimals gives the number back |
| ScannedNumbers.ScanPoint | hw2/src/read.c:310 | w.p is the number whose product with 10^digits(p) is the value of the digits wp, whatever follows |
| ScannedNumbers.ScanWhole | hw2/src/read.c:310 | digits without a point are their value; without a digit there is no number |
| ScannedNumbers.ScanSigned | hw2/src/read.c:310 | a minus negates the number behind it, a plus changes nothing |
| ScannedNumbers.ScanNothing | hw2/src/read.c:310 | a point alone and a second sign are no number |
| ScannedNumbers.EightHundredths | hw2/cse307.dat:4 | 0.08 reads as 0.08 |
| CourseLanguage.NormRead | hw2/src/read.c:333-388 | a NORMALIZE line means its keywords one after the other, GENLINEAR with mean and then deviation; an empty one is one error and means RAW BYCLASS |
| CourseLanguage.LinesRead | hw2/src/read.c:118-129 | an assignment's lines, in any order and number, with any separators, blank lines and comments, mean what they say one after the other |
| CourseLanguage.JunkSkipped | hw2/src/read.c:489-513 | blank lines and comments are skipped up to the next text |
| CourseLanguage.TokenFits | hw2/src/read.c:535-549 | a token of up to 63 characters is read, a longer one stops the reader |
| CourseLanguage.BadNumber | hw2/src/read.c:305-317 | a word in place of a number is one error and stays for the next reader |
| CourseLanguage.LeftOver | hw2/src/read.c:616-631 | anything left on a line is one error, and the line is skipped |
| CourseLanguage.LinearPrinted | hw2/src/write.c:98-101 | a LINEAR policy is printed with its mean, then its deviation, then its group |
| CourseLanguage.Undeclared | hw2/src/read.c:203-212 | a score for an assignment that was not declared stops the reader |
| CourseReader.Find | hw2/src/read.c:204-209 | the first assignment of that name |
| CourseFiles.Reader.AdvanceToken | hw2/src/read.c:535-549 | the buffer ends with the next token, or the buffer would overflow |
| CourseFiles.Reader.AdvanceEol | hw2/src/read.c:556-578 | the buffer ends with the rest of the line |
| CourseFiles.Reader.GobbleBlankLines | hw2/src/read.c:489-513 | comments and blank lines are skipped |
| CourseFiles.Reader.CheckToken | hw2/src/read.c:604-614 | a matching token is removed, any other stays |
| CourseFiles.Reader.ExpectNewline | hw2/src/read.c:616-631 | the line is left, with an error if anything is left on it |
| CourseFiles.Reader.ReadNorm | hw2/src/read.c:333-388 | the loop over keywords is the recursive reading of the line |
| CourseFiles.Reader.ReadDetails | hw2/src/read.c:118-129 | the loop over lines is the recursive reading |
| CourseFiles.Reader.ReadGrade | hw2/src/read.c:224-303 | the entry, state and errors of every input under every policy, out-of-range USENORM scores included |
| CourseFiles.Reader.ReadScores | hw2/src/read.c:189-222 | scores are read up to another keyword; an unknown assignment stops |
| CourseFiles.Reader.ReadCourse | hw2/src/read.c:62-81 | course, state and errors of every input |
| CourseFiles.ReadFile | hw2/src/read.c:37-60 | the result is FileRead of the text, for every text |
| CourseFiles.Writer.WriteAssignment | hw2/src/write.c:89-115 | appends the printed assignment |
| CourseFiles.Writer.WriteEntry | hw2/src/write.c:35-64 | appends the printed entry, the fall-through of USENORM included |
| CourseFiles.Writer.WriteStudent | hw2/src/write.c:68-76 | appends the student and all scores |
| CourseFiles.Writer.WriteCourse | hw2/src/write.c:117-129 | appends PutCourse of the course |
| CourseRoundTrip.NormLinear | hw2/src/write.c:98-101 | LINEAR reads back as RAW with two errors |
| CourseRoundTrip.DetailsBack | hw2/src/read.c:118-129 | the lines of a printed assignment read back as RereadAssignment |
| CourseRoundTrip.AssignmentsBack | hw2/src/read.c:105-132 | so do all assignments, with two errors for every LINEAR |
| CourseRoundTrip.GradeBack | hw2/src/read.c:224-303 | a printed entry reads back as RereadEntry, with an error exactly for a USENORM score out of its policy's range |
| CourseRoundTrip.ComplaintsMean | hw2/src/read.c:275-288 | reported are exactly the USENORM scores outside [0, 100] under QUANTILE and outside [0, scale] under SCALE |
| CourseRoundTrip.ScoresBack | hw2/src/read.c:189-222 | the scores of a student read back, each with its own assignment and its own error |
| CourseRoundTrip.SectionsBack | hw2/src/read.c:134-187 | the sections and their students read back with the errors of their scores |
| CourseRoundTrip.CourseBack | hw2/src/write.c:117-129 | reading a printed course gives Reread of it and exactly CourseComplaints errors, for every course whose strings fit the format |
| CourseRoundTrip.RoundTrip | hw2/src/read.c:37-81 | it comes back unchanged and without error exactly when it is Printable |
| PrinterSets.MaskHasBits | hw4/src/main.c:675-685 | a sum of different powers has exactly their bits |
| PrinterSets.MaskIsNamedSet | hw4/src/main.c:675-685 | the sum stands for the named set exactly when no printer is named twice |
| PrinterSets.NamedTwice | hw4/src/main.c:680 | naming printer 0 twice makes printer 1 eligible |
| PrinterSets.AnyPrinter | hw4/src/main.c:665 | ANY_PRINTER has the bit of every printer |
| Spooler.StartedKeepsConsistent | hw4/src/main.c:796-808 | starting a job keeps the bijection of running jobs and busy printers |
| Spooler.DispatchedIsSettled | hw4/src/main.c:794-813 | the pass keeps the bijection, leaves no queued job an idle enabled eligible printer, and changes nothing else |
| Spooler.DispatchedAgain | hw4/src/main.c:794-813 | a second pass does nothing |
| SpoolerCommands.DispatchInOrder | hw4/src/main.c:794-813 | earlier jobs go first, each gets the first idle printer that fits and no earlier job took, and exactly those printers become busy |
| SpoolerCommands.CommandChanges | hw4/src/main.c:446-815 | what each command changes of types, printers and jobs: enable and disable switch exactly the printer so named, cancel aborts exactly the waiting jobs of the file, type, printer and print add exactly one entry or none |
| SpoolerCommands.PromptMeans | hw4/src/main.c:446-815 | at every prompt of every run jobs print on busy printers of their type that they may use, one each, and a job waits only while all such printers are busy or disabled |
| SpoolerCommands.StartsEnabled | hw4/src/main.c:796-808 | a job starts only on an enabled idle printer of its type that it may use |
| SpoolerCommands.FileType | hw4/src/main.c:641-647 | a file's type is what follows its last point, points at the end not counting |
| Spooler.AfterKeepsGood | hw4/src/main.c:446-815 | every command keeps what holds at every prompt |
| Spooler.RunKeepsGood | hw4/src/main.c:446-815 | so does every run; started jobs keep their printer, cancelled ones never start |
| Spooler.EligibleAsNamed | hw4/src/main.c:675-719 | a job is eligible for exactly the named printers if and only if no name is repeated |
| Spooler.AnyIsEligible | hw4/src/main.c:663-666 | with no printer named a job is eligible for every printer there can be |
| Spooler.HalfOfBest | hw4/src/main.c:794-813 | the running jobs are at least half of any possible assignment to enabled printers |
| Spooler.Spooler.Declare | hw4/src/main.c:510-545 | a printer is added exactly when its name is new and its type known |
| Spooler.Spooler.Submit | hw4/src/main.c:637-727 | a job is queued exactly when all named printers and its type exist |
| Spooler.Spooler.CancelJobs | hw4/src/main.c:730-739 | exactly the queued jobs of that file are aborted |
| Spooler.Spooler.Switch | hw4/src/main.c:748-781 | exactly the named printer is switched |
| Spooler.Spooler.Dispatch | hw4/src/main.c:794-813 | the nested loops are the greedy pass |
| Spooler.Spooler.Do | hw4/src/main.c:446-815 | one command takes the state to After of it and keeps Good |
| AudioFrames.FramesOfBytes | hw1/src/hw1.c:657-684 | written frames read back as the same frames |
| AudioFrames.SpeedUpUndoesSlowDown | hw1/src/hw1.c:412-455 | -d F then -u F is the identity on frames; n > 0 frames become (n-1)*F+1 |
| AudioFrames.SpeedUpStream | hw1/src/hw1.c:412-455 | the same on byte streams |
| AudioFrames.CryptByte | hw1/src/hw1.c:468-483 | each byte is xored with the byte of the random number at its place |
| AudioFrames.CryptSampleTwice | hw1/src/hw1.c:468-483 | encrypting a sample twice with one random number is the identity at 1 to 4 bytes |
| AudioFrames.CryptTwice | hw1/src/hw1.c:458-486 | -c twice with the same key is the identity on every sequence of frames |
| AudioFrames.CryptStreamTwice | hw1/src/hw1.c:458-486 | the same on byte streams, a partial frame at the end being dropped |
| AudioStreams.SpedAt | hw1/src/hw1.c:420-426 | speeding up keeps exactly the frames 0, F, 2F and so on |
| AudioStreams.SlowedAt | hw1/src/hw1.c:437-455 | between two frames stand their interpolations 1 to F - 1 in order |
| AudioStreams.FrameByte | hw1/src/hw1.c:459-485 | byte j of channel c of frame i is xored with its own byte of the key stream, four numbers for every channel of every frame before |
| AudioStreams.FirstBytes | hw1/src/myrand.c:22-25 | the first four states and bytes from the seed 1 |
| Audio.MyRand32 | hw1/src/myrand.c:39-45 | byte j of the number, from the top, is the top byte of the number that call j + 1 of myrand returns, and the state is that after four calls |
| Audio.Recoder.ReadFrame | hw1/src/hw1.c:657-671 | a whole frame is read, or the input is used up |
| Audio.Recoder.SpeedUp | hw1/src/hw1.c:420-426 | the output is every factor-th frame |
| Audio.Recoder.SlowDown | hw1/src/hw1.c:437-455 | the output is the slowed stream |
| Audio.Recoder.CryptFrame | hw1/src/hw1.c:468-483 | one frame is encrypted channel by channel |
| Audio.Recoder.Crypt | hw1/src/hw1.c:459-485 | the output is the encrypted stream |

## Left out

Allocator:

- The two_zeroes bits of headers and links, which no modelled code reads.
- Wrap-around of size_t in the rounding of requests near 2^64 and of the 28- and 32-bit header fields; `HeapTheorems.FieldsFit` shows that nothing wraps on a heap below 4 GiB.
- The bodies of sf_mem_grow and sf_add_free_list, which are not in the repository: the first is the page bound above, the second allocates a header node.
- Allocator.Heap.Init: requires at least one page; the source does not look at a failing first sf_mem_grow().
- Allocator.Heap.Free: requires a live pointer; the abort() for other pointers is only modelled by Accepts.
- The order between independent writes: unlinks come before the merge of the tags.
- sf_show and the other printing functions.

Sorting and statistics:

- Failing allocations, warnings' text, and the composite score itself (an input of the comparator).
- The order in which buildstats (hw2/src/stats.c:33-80) appends its records: their links are constants here, so `Statistics.BuildClasses` makes the lists from their ends.
- Quantiles.Percentile: models the QUANTILE branch of normal only; the branches for RAW, SCALE and the EPSILON clamp of LINEAR are left out.
- Rounding of float and double, and NaN grades.
- Report layout, histograms and option parsing.

Grade file:

- FILE lines and the stack of input files: the model stops there.
- Line numbers in messages, and warnings, about grades above the maximum or strange LINEAR scores.
- Characters NUL and 0xff, which the C code confuses with the end of a string and of the file.
- Exponents, hexadecimal, infinities and NaN in `sscanf("%f")`, ties in the rounding of `printf("%f")`.
- Linked nodes: a course is a value, and a score names its assignment by place.

Transactions and registry:

- Reference counts, waitcnt and freeing; the abort path at hw5/src/transaction.c:184-187 does not release.
- Data races on the transaction list itself: trans_create is one step.
- A failing malloc, and creg_fini during use.
- hw5/src/data.c, server.c, protocol.c, main.c and csapp.c; store.c is not in the repository.

Spooler:

- Output, timestamps, connecting to printers, conversions, batch mode, and pause and resume, which leave the command loop.
- More than 32 printers, 1024 jobs or 100 types: the arrays have no room and the code does not stop; `Spooler.Allowed` excludes them, a file name without a type, and a sum of named printers beyond uint32_t.

Audio:

- The values of interpolated samples (calcu_frame does not extend signs and overflows for wide samples): any function that keeps the frame width stands for it.
- Header and annotation, data_size scaling and validargs.
- hw0 and all test drivers.
