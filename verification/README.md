# AllocSitter in Dafny

A model of the two hand-written heap allocators of AllocSitter, of the script that
replays their allocation logs, and of three self-contained algorithms from the Redis
snapshot that serves as benchmark input, with machine-checked proofs about all of them.

`dafny verify dfyconfig.toml` checks everything.

## How it is built

**The allocators.** A heap is described three times.

1. Raw memory (`Memory`, `Format`, `Arenas`, `FirstFit`, `Segregated`). `Arena.mem` is an
   array of bytes in which 32-bit tags, 64-bit list links and client data live side by
   side. The classes `FirstFit.Allocator` and `Segregated.Allocator` run the code's own
   steps on it: every tag, every link store, every walk along the list.
2. Blocks and lists (`Layout`, `FreeLists`, `FirstFitHeap`, `SegregatedHeap`). A pure state
   machine over the block map, the lists and the break. Each class method proves that it
   takes exactly the step of this machine. `FirstFitLaws` and `SegregatedLaws` say what a
   step leaves without the machine's own functions: by flags, sizes, size classes and list
   order. `Coalescing` says when a step brings two free blocks together.
3. The client's view (`ClientStore`, `StoreLaws`, `Bridge`, `Machines`, `Traces`). Live pointers, their
   lengths and the bytes in them. Each allocator call proves the C contract of malloc,
   calloc, realloc and free (section 7.22.3 of ISO/IEC 9899:2011) in these terms, and both
   allocators refine one abstract store from handles to cells; what that store holds is told
   by the commands of the trace.

The ghost parameter `keep` that runs through the memory level names the blocks whose
payload bytes must survive a step; `KeepsPayloads` is the framing statement for them.
The two C files repeat their arena, tag and list code; the model has it once, in
`Arenas.Arena`, with as many lists as the allocator has bins.

Two predicates name the sizes malloc can take. `Sane`: the rounded size makes a block and
the address sum does not wrap, so the code's steps make sense. `Requestable`: the rounding
does not wrap either, so the block holds the request. The contracts for all other sizes
are those of the members with `Wrapped` in their name.

**The replayer** (`Replay`) is `bench/analyze_trace.py` as a class and as a fold, and a
simulation relation between it and the segregated heap.

**Redis.** `AclText`, `Acl` and `AclLaws` model command-rule compaction, with the splitter of
`sds.c` that takes the rules apart again, and `Quoting` the functions of `sds.c` that put
strings into a form the splitter reads back; `SlotRanges` slot-range arrays; `BitFields` and `BitScan`
bit fields, bit counting and bit search.

## What the code does not do

These came out of the proofs. Each has a lemma at an input or a family of inputs, and the
exact condition under which the code does what is promised.

- `free` clears the used flag in the header only, and the shrink path of realloc lists its
  tail unmerged, so neighbouring free blocks do occur although README.md:10 speaks of
  immediate merging (`Coalescing.AdjacentFree`, `Coalescing.FreeThenFree`). A call keeps
  free blocks apart exactly under `Coalescing.KeepsMerged`: for free, that the left
  neighbour is not a free block with a stale footer flag (`Coalescing.StepMerges`,
  `Coalescing.RunMerges`). What does hold always is that a clear footer flag means a clear
  header flag, which is what makes every merge safe.
- malloc's rounding and address sum wrap at 2^64. For sizes near the top a pointer comes
  back that does not hold the request, the break may move down, and tags are stored over
  other blocks or outside the arena (`FirstFit.Allocator.MallocWrapped`,
  `FirstFitHeap.WrappedFirst`; `FirstFitHeap.MallocHolds` gives the exact condition over
  all sizes, `FirstFitHeap.CallocOverruns` what calloc does then).
- The first-fit realloc rounds with a 32-bit mask. A block that holds the request comes
  back exactly when size + 23 < 2^32 (`FirstFit.ReallocHolds`); at 4 GiB a block with 8
  bytes of room is returned as it is (`FirstFitHeap.ReallocTooSmall`,
  `FirstFitHeap.TooSmallRun`). When the mask leaves 0, a block in use is put on the free
  list and the word below it is overwritten (`FirstFit.Allocator.ReallocMaskedOut`).
- `check_invariant` reads through a null pointer when the very first malloc failed
  (`FirstFit.CheckAfterFailure`), and only then (`FirstFit.Allocator.CheckInvariant`).
- The replayer counts a pointer that a log hands out twice as two allocations
  (`Replay.GivenTwice`); its live counts are those of the live pointers exactly for logs in
  which that does not happen (`Replay.CleanExact`), as in every log the allocator writes
  (`Replay.ReplayAgrees`).
- After a failed realloc the replayer has forgotten an allocation that is still live
  (`Replay.Orphaned`); its count is then short by exactly those bytes
  (`Replay.ReplayAgrees`).
- The first argument in an ACL rule such as `+select|arg` may be any text, and describing
  the selector later may abort the server. It does so exactly when the rule, split on its
  own and given to a selector with the bitmap the operation meets, is not accepted with the
  same bitmap (`Acl.ReadsBack`; `Acl.FirstArgExact`, over whole runs `Acl.RunExact`, for a
  rule that does touch bits `Acl.DescribeExact`). So it aborts for a quote nothing closes
  (`Acl.SelectQuote`, `Acl.QuoteAborts`), for white space followed by no operation
  (`Acl.BlankAborts`) or by one that takes a command away (`Acl.SelectGet`,
  `Acl.MismatchAborts`), and does not for closed quotes (`Acl.SelectQuoted`) or without
  quotes and white space (`Acl.RunDescribed`).
- `sdsneedsrepr` passes strings that the splitter does not read back without quotes: the
  empty one and those with a single quote, and only those (`Quoting.UnquotedExact`).
- Slot-range validation merges before it looks for reversed ranges, so it accepts
  `lo-hi (hi+1)-mid` and drops slots (`SlotRanges.ReversedSwallowed`;
  `SlotRanges.ReversedExact` gives the condition); and an array has more than one normal
  form exactly when two different ranges of it start together (`SlotRanges.TiesAmbiguous`,
  `SlotRanges.TiesExact`).
- The unsigned overflow check is wrong at 64 bits (`BitFields.UnsignedCheck64` says
  exactly when; the command never asks for it), and a saturating signed SET of a value far
  below the range stores the maximum (`BitFields.SignedStore`, `BitFields.FarBelow`).

## Model

| member | source | states |
|---|---|---|
| Memory.DecodeEncode | src/allocator.c:44-47 | Storing a word and loading it back gives the word, for every width |
| Memory.LoadStored | src/allocator.c:50-56 | A stored tag or link is what a later load at that address returns |
| Layout.LeftNeighbour | src/allocator.c:171-176 | In a tiled heap every block but the first has a block that ends exactly where it starts |
| Layout.SplitTiles | src/allocator.c:95-100 | Cutting a block in two keeps the tiling and makes a boundary that was not there |
| Layout.MergeTiles | src/allocator.c:162-179 | Absorbing the right neighbour keeps the tiling |
| Layout.ExtendTiles | src/allocator.c:142-148 | A block carved at the break extends the tiling |
| Layout.BytesConserved | src/allocator.c:267-284 | Used and free bytes of a tiled range add up to its length |
| Layout.SizeFitsTag | src/allocator.c:42-47 | No block size exceeds 2^32 - 16, so no tag is cut off |
| Format.SetTagsFrame | src/allocator.c:44-47 | Tagging one block leaves all other tags and all payloads alone |
| Format.PushWired | src/allocator.c:50-56 | A push threads the block in front of its list and disturbs no tag, no other list and no kept payload |
| Format.UnlinkFirstWired | src/allocator.c:59-75 | Unlinking the head leaves the rest threaded in order |
| Format.UnlinkLaterWired | src/allocator.c:59-75 | Unlinking a later node by rewriting its predecessor's link leaves the rest threaded in order |
| Format.ClearFrame | src/allocator.c:158-158 | Clearing the header flag leaves the footer flag and every payload as they were |
| FreeLists.NeedExact | src/allocator.c:80-80 | The rounded size is the least multiple of 16 holding size + 8, exactly when size + 23 does not wrap |
| FreeLists.OverflowTest | src/allocator.c:188-191 | calloc's division test is true exactly when the product exceeds 64 bits |
| FreeLists.MoveKeeps | src/allocator.c:234-238 | Allocate, copy, free: the copied bytes arrive and every other payload in use is unchanged |
| Arenas.Arena.SetTags | src/allocator.c:44-47 | Header and footer words as written, and everything else about the heap still in place |
| Arenas.Arena.Push | src/allocator.c:50-56 | The block is first on its list and the length counter goes up by one |
| Arenas.Arena.FindFit | src/allocator.c:82-125 | The first node in link order that is large enough, the cell leading to it, and the number of nodes looked at |
| Arenas.Arena.FindNode | src/allocator.c:59-75 | The place of a header on a list, or that it is not there |
| Arenas.Arena.Unlink | src/allocator.c:63-71 | The list without that node |
| Arenas.Arena.TakeSplit | src/allocator.c:90-109 | The split branch of malloc: front in use, rest on a list, kept payloads untouched |
| Arenas.Arena.TakeWhole | src/allocator.c:110-123 | The whole-block branch of malloc |
| Arenas.Arena.Extend | src/allocator.c:27-40 | For every n: the old break and the new one modulo 2^64, or -1 and no change when the sum lies between the end of the arena and 2^64 |
| Arenas.Arena.Carve | src/allocator.c:126-150 | When the sum does not wrap: a new used block at the padded break, or null with only the statics set up |
| Arenas.Padding | src/allocator.c:127-127 | The alignment padding is 12 before the first block and 0 ever after |
| Arenas.ExtendTestExact | src/allocator.c:37-37 | The wrapped bounds test is right exactly when the sum fits in 64 bits |
| Arenas.Arena.Grow | src/allocator.c:126-133 | malloc's three calls of arena_extend: padding, old break and new break modulo 2^64 |
| Arenas.Arena.MallocWrapped | src/allocator.c:82-150 | malloc at rounded size 0 or with a wrapping sum: pointer, break, list heads (the leftover on the list of its own tag), every byte stored, and whether a tag goes past the end of the arena or below its base |
| Arenas.WrappedHeader | src/allocator.c:95-111 | The header word below the pointer such a malloc returns |
| FreeLists.WrappedHolds | src/allocator.c:80-150 | Whatever it returns is not null and does not hold the request |
| Arenas.Arena.LinearPass | src/allocator.c:266-284 | The walk by address passes its assertions and collects exactly the free blocks and the used bytes |
| FirstFitHeap.MallocValid | src/allocator.c:77-151 | At every sane size malloc keeps the heap valid and adds one block of exactly the rounded size to those in use |
| FirstFitHeap.MallocIsFirstFit | src/allocator.c:80-131 | The block taken is the earliest on the list that fits; the break moves only if none does |
| FirstFitHeap.MallocHolds | src/allocator.c:77-151 | Over all sizes below 2^64: null or a block that holds the request, exactly when nothing wraps or the heap is full and the size rounds to 16 |
| FirstFitHeap.WrappedFirst | src/allocator.c:77-151 | malloc(2^64 - 24) and malloc(2^64 - 8) on the empty heap |
| FirstFitHeap.CallocOverruns | src/allocator.c:187-195 | At all other sizes calloc returns null or zeroes past the end of the arena |
| FirstFitHeap.FailedFirst | src/allocator.c:126-137 | A first malloc of 4 GiB fails and leaves the break at the base |
| FirstFitLaws.MallocTakes | src/allocator.c:82-125 | The first listed block that is large enough is handed out, its rest goes first on the list, the others keep their order |
| FirstFitLaws.MallocCarves | src/allocator.c:126-150 | With no free block large enough a block is made at the break, or null if the arena has no room |
| FirstFitHeap.MergeRightPending | src/allocator.c:158-169 | Clearing and merging right leaves a tiled heap with only the freed block unlisted |
| FirstFitHeap.MergeLeftValid | src/allocator.c:171-183 | Folding into a left neighbour with a clear footer flag, or listing, restores the heap; the neighbour is really free |
| FirstFitHeap.FreeValid | src/allocator.c:153-184 | free keeps the heap valid and takes exactly the given block out of use |
| FirstFitLaws.FreeExact | src/allocator.c:153-184 | The block and just the right neighbour with a clear header flag and the left one with a clear footer flag become one free block, first on a list those neighbours are gone from; its footer flag stays set exactly when there were none |
| FirstFitHeap.GrowValid | src/allocator.c:212-231 | In-place growth leaves a valid heap with exactly the rounded size in use |
| FirstFitHeap.ShrinkValid | src/allocator.c:242-256 | Shrinking leaves a valid heap with exactly the rounded size in use |
| FirstFitHeap.ReallocValid | src/allocator.c:196-258 | realloc resizes in place to the rounded size or moves to 16 bytes more; nothing else in use changes; null changes no block |
| FirstFitHeap.NewSizeExact | src/allocator.c:207-207 | The masked size holds the request exactly when size + 23 < 2^32 |
| FirstFitLaws.NewSizeIs | src/allocator.c:207-207 | The masked size is the low 32 bits of what malloc rounds to |
| FirstFitLaws.ReallocStays | src/allocator.c:207-242 | realloc returns its pointer exactly when the block is large enough, or the next block has a clear header flag and both together are |
| FirstFitLaws.ReallocInPlace | src/allocator.c:212-256 | The block is then the new size; what is left is one free block, first on the list |
| FirstFitLaws.ReallocMoves | src/allocator.c:233-239 | Otherwise it is malloc of the rounded size and, given a pointer, free |
| FirstFitLaws.GrowsOverStale | src/allocator.c:212-231 | realloc(a, 24) beside a freed block of 16 bytes whose footer flag is still set returns a |
| FirstFitHeap.ReallocTooSmall | src/allocator.c:207-256 | A block of 16 bytes reallocated to 4 GiB comes back unchanged, with 8 bytes of room |
| FirstFitHeap.TooSmallRun | src/allocator.c:207-256 | That as a run from the empty heap that honours the client contract |
| FirstFitHeap.RunValid | src/allocator.c:44-258 | Every state of every run: blocks tile the heap, the list is exactly the header-free blocks once each, a clear footer flag means a free block |
| FirstFitHeap.RunConserves | src/allocator.c:27-40 | On every run from the empty heap used plus free bytes are the arena consumed less 12 |
| Coalescing.FreeMerges | src/allocator.c:153-184 | free keeps free blocks apart exactly when its left neighbour is not free under a set footer flag |
| Coalescing.ShrinkMerges | src/allocator.c:242-256 | Shrinking keeps them apart exactly when nothing is cut off or the right neighbour is in use |
| Coalescing.MallocMerges | src/allocator.c:77-151 | malloc always keeps them apart |
| Coalescing.GrowMerges | src/allocator.c:212-231 | So does in-place growth |
| Coalescing.MoveMerges | src/allocator.c:233-239 | A moving realloc does exactly when no such left neighbour is there, it is the first fit for the new size, or nothing fits and the arena is full |
| Coalescing.StepMerges | src/allocator.c:77-258 | Each operation keeps free blocks apart exactly under its condition |
| Coalescing.RunMerges | src/allocator.c:77-258 | They stay apart throughout a run exactly when each step meets its condition |
| Coalescing.AdjacentFree | src/allocator.c:242-256 | A run that ends with a shrink and two neighbouring free blocks |
| Coalescing.FreeThenFree | src/allocator.c:153-184 | Freeing the left and then the right of two neighbours never merges them |
| FirstFit.Allocator.Malloc | src/allocator.c:77-151 | The code on raw memory takes the first-fit step and no payload in use changes |
| FirstFit.Allocator.MallocWrapped | src/allocator.c:77-151 | The code on raw memory at every size that is not sane: pointer, header word, break, head, every byte, and stores outside the arena on either side |
| FirstFit.Allocator.FreelistRemove | src/allocator.c:59-75 | The list loses that block, and only that, if it is there |
| FirstFit.Allocator.AbsorbRight | src/allocator.c:158-169 | The right merge, on memory |
| FirstFit.Allocator.JoinLeft | src/allocator.c:171-183 | The left merge, on memory |
| FirstFit.Allocator.Free | src/allocator.c:153-184 | The free step; afterwards the word below the pointer is not flagged used, and if it was not flagged before nothing at all changes |
| FirstFit.Allocator.FreeTwice | src/allocator.c:153-184 | A second free with nothing in between changes no byte and no variable, on all four merge paths |
| FirstFit.Allocator.Calloc | src/allocator.c:187-195 | Null on an empty or overflowing product; otherwise the malloc step and every byte zero |
| FirstFit.Allocator.GrowInPlace | src/allocator.c:212-231 | The growth step with or without split; every payload in use keeps its bytes |
| FirstFit.Allocator.ShrinkInPlace | src/allocator.c:242-256 | The shrink step; what is left of the payload and all others keep their bytes |
| FirstFit.Allocator.MoveBlock | src/allocator.c:233-239 | Move and copy: old contents arrive, others unchanged, failure changes nothing live |
| FirstFit.Allocator.Realloc | src/allocator.c:196-258 | The realloc step on all paths, with the first min(old, new) payload bytes preserved and all live contents untouched by a null result; the pointer stays exactly when the block, or it and a right neighbour with a clear header flag, is large enough |
| FirstFit.Allocator.ReallocMaskedOut | src/allocator.c:207-256 | What happens when the 32-bit mask leaves size 0 |
| FirstFit.ReallocHolds | src/allocator.c:207-258 | realloc's result holds the request exactly when size + 23 < 2^32 |
| FirstFit.Allocator.Perform | src/allocator.c:77-258 | Every call is the step of the abstract heap, pointer returned included, and honours the client contract |
| FirstFit.AllFree | src/allocator.c:266-307 | The walk by address and the free list meet the same blocks, equally many |
| FirstFit.Allocator.CheckInvariant | src/allocator.c:260-308 | Passes in every valid state, apart from its fixed capacity and the null walk after a failed first malloc |
| FirstFit.CheckAfterFailure | src/allocator.c:260-267 | After a first malloc that failed it reads through a null pointer |
| SegregatedHeap.SingleSizeBin | src/segregated_allocator.c:66-79 | Blocks that share one of the bins 16, 32, 80, 96, 112, 128 have the same size |
| SegregatedLaws.BinCounts | src/segregated_allocator.c:66-79 | The bin of a size is how many of the ten limits lie below it |
| SegregatedLaws.BinsAreClasses | src/segregated_allocator.c:66-79 | Two sizes share a bin exactly when no limit lies between them |
| SegregatedLaws.ListedByClass | src/segregated_allocator.c:66-79 | In a valid heap a block is on a list exactly when it is free and of that size class |
| SegregatedLaws.MallocServed | src/segregated_allocator.c:81-160 | A block is made at the break exactly when no free block of the class is large enough and the arena has room; null exactly when it has none either; otherwise a free block of the class is used |
| SegregatedLaws.MallocTakes | src/segregated_allocator.c:89-133 | The first on the list of the class that is large enough, its rest first on the list of its own class |
| SegregatedLaws.MallocCarves | src/segregated_allocator.c:134-160 | Otherwise a block at the break or null |
| SegregatedLaws.FreeExact | src/segregated_allocator.c:162-174 | Only the header flag is cleared; the block goes first on the list of its class |
| SegregatedLaws.ReallocMoves | src/segregated_allocator.c:186-201 | realloc never stays in place |
| SegregatedLaws.ClassesKept | src/segregated_allocator.c:66-87 | A freed block of 384 bytes does not serve malloc(240) |
| SegregatedHeap.MallocGained | src/segregated_allocator.c:81-160 | malloc adds one block of exactly the rounded size, counts it live, keeps the bins a partition of the free blocks |
| SegregatedHeap.MallocHolds | src/segregated_allocator.c:81-160 | As for the first-fit malloc, over all sizes below 2^64 |
| SegregatedHeap.CallocOverruns | src/segregated_allocator.c:177-185 | As for the first-fit calloc |
| SegregatedHeap.FreeValid | src/segregated_allocator.c:162-174 | free takes exactly the block out of use, uncounts it, puts it in the bin of its size |
| SegregatedHeap.ReallocResized | src/segregated_allocator.c:186-201 | realloc replaces one live block by another, or leaves all as it was when it fails |
| SegregatedHeap.SingleSizeHit | src/segregated_allocator.c:66-131 | In a single-size bin a hit is the head, taken whole: no boundary is added |
| SegregatedHeap.RunValid | src/segregated_allocator.c:58-201 | Every state of every run is valid; the break never falls and no block boundary ever disappears |
| SegregatedHeap.PeakIsHighest | src/segregated_allocator.c:44-49 | Without resets the peak counter is exactly the highest live count over all intermediate states |
| SegregatedHeap.PeakSinceReset | src/segregated_allocator.c:272-281 | With resets it is the highest since the last one, counted from the live bytes found there |
| SegregatedHeap.StaleFree | src/segregated_allocator.c:162-174 | Freeing a pointer once returned by malloc or realloc whose block is not in use is a no-op at any later time |
| SegregatedHeap.RunConserves | src/segregated_allocator.c:28-49 | Live bytes plus free bytes plus 12 are the arena used |
| Segregated.Allocator.TakeFrom | src/segregated_allocator.c:96-131 | A bin hit on memory, split or whole, with the counters |
| Segregated.Allocator.Malloc | src/segregated_allocator.c:81-160 | The code on raw memory takes the bin-fit step; in a single-size bin it looks at no more than one node; the break moves exactly when no free block of the request's size class is large enough |
| Segregated.Allocator.MallocWrapped | src/segregated_allocator.c:81-160 | The same with all heads, the leftover in the bin of its tag, and the live count in 64 bits |
| Segregated.Allocator.Free | src/segregated_allocator.c:162-174 | The free step on memory; a block not flagged used is left alone |
| Segregated.Allocator.Calloc | src/segregated_allocator.c:177-185 | As for the first-fit calloc |
| Segregated.Allocator.Realloc | src/segregated_allocator.c:186-201 | Allocate, copy min(old payload, size) bytes, free; a null result leaves all live contents |
| Segregated.Allocator.Perform | src/segregated_allocator.c:81-201 | Every call is the step of the abstract heap, pointer returned included, and honours the client contract |
| Segregated.MallocIsBinFit | src/segregated_allocator.c:86-133 | The block taken is the earliest of its bin that fits |
| Segregated.FlatDistinct | src/segregated_allocator.c:233-256 | Lists that share no block and repeat none are one list without repeats |
| Segregated.Allocator.CheckInvariant | src/segregated_allocator.c:203-263 | Passes in every valid state, with the same two exceptions |
| Segregated.Allocator.ArenaUsed | src/segregated_allocator.c:266-270 | The reported arena use is live bytes, free bytes and the first padding |
| Segregated.Allocator.ResetStats | src/segregated_allocator.c:274-281 | The peak restarts at the live count and the heap stays as it is |
| ClientStore.StepRefines | src/allocator.c:77-258 | Any call that honours the contract keeps the refinement of the abstract store |
| ClientStore.RunRefines | src/allocator.c:77-258 | So does a run of any length |
| ClientStore.RunsAgree | src/segregated_allocator.c:81-201 | Two allocators that honour the contract end a common trace with the same handles live and the same defined bytes |
| StoreLaws.ResizeExact | src/allocator.c:196-258 | After a resize that succeeded: that many cells, the old ones below both lengths, the others unset, no other handle changed |
| StoreLaws.ToldNext | src/allocator.c:77-258 | After every trace a cell holds v exactly when the last command to touch it wrote v, and a handle has n cells exactly when the last command to size it gave it n |
| Bridge.ViewValid | src/allocator.c:77-151 | Payloads of the blocks in use are in bounds and pairwise disjoint |
| Bridge.ResizedFrom | src/allocator.c:196-258 | Block-level facts about a realloc amount to the client contract |
| Machines.LeftStep | src/allocator.c:77-258 | With room for a command's cost the first-fit machine answers every allocation, keeps its handles on blocks in use and its break within the cost |
| Machines.RightStep | src/segregated_allocator.c:81-201 | So does the segregated machine |
| Machines.ServedInFull | src/allocator.c:27-40 | A sensible trace whose rounded sizes add up to no more than the arena is served in full by both, whatever it frees |
| Traces.StepBoth | src/segregated_allocator.c:81-201 | One command: both allocators follow the two abstract heaps, stay together if those answer alike, and each refine a store of their own if not |
| Traces.RunBoth | src/allocator.c:77-258 | Running a trace on fresh allocators of both kinds follows the two abstract heaps; it finishes exactly when those agree on the whole trace, and always when the trace's demand fits in the arena; then every live allocation is as long as requested, disjoint from the others, and holds the same defined bytes in both; each cell of the store has the byte last written to it, across reallocs, and that byte is read in both |
| Replay.Replayer.Take | bench/analyze_trace.py:74-104 | One record moves the state by one step of the fold |
| Replay.Analyze | bench/analyze_trace.py:74-104 | The event loop is the fold, and its numbers are those of Replay.FoldReported |
| Replay.FoldReported | bench/analyze_trace.py:51-104 | For every log: the live map; live bytes asked for and charged; both peaks are the highest such value after any record, or 0; failed counts the requests answered with null, unknown_free the removals of pointers not live |
| Replay.CleanExact | bench/analyze_trace.py:51-71 | The live counts are the sums over the live map exactly when no record hands out a live pointer |
| Replay.GivenTwice | bench/analyze_trace.py:51-60 | A log with one pointer handed out twice |
| Replay.ChunkIsNeed | bench/analyze_trace.py:26-28 | The replayer charges what the allocator rounds to |
| Replay.ServeTracks | bench/driver.c:65-94 | Serving one request and replaying its record keeps allocator and replayer in step |
| Replay.RunTracks | bench/driver.c:65-94 | So does every sequence of requests |
| Replay.ReplayAgrees | bench/analyze_trace.py:31-104 | Live bytes agree up to what failed reallocs orphaned, are equal exactly when nothing is orphaned, and the replayer's peak never exceeds the allocator's |
| Replay.Orphaned | bench/analyze_trace.py:87-96 | malloc(8) and a realloc that fails: the replayer counts 0 bytes live, the allocator 16 |
| AclText.RemoveCommandRule | bench/redis-src/acl.c:578-620 | The scan that moves the tail computes the deletion on any text |
| AclText.RemovedJoin | bench/redis-src/acl.c:578-620 | On rules joined by blanks the deletion leaves exactly the uncovered ones, in order |
| AclText.SurvivingWords | bench/redis-src/acl.c:600-616 | The rules left are those not covered by the new name |
| AclText.SplitJoin | bench/redis-src/sds.c:1056-1164 | Splitting joined rules that hold no quote and no white space gives them back |
| AclText.SplitExact | bench/redis-src/sds.c:1056-1164 | and exactly then |
| AclText.ReadToken | bench/redis-src/sds.c:1066-1144 | The inner loop reads one token, quotes and escapes included, or fails |
| AclText.SplitArgs | bench/redis-src/sds.c:1056-1164 | The splitter computes the tokens of any line, or none for unbalanced quotes |
| AclText.SplitOpen | bench/redis-src/sds.c:1097-1122 | A quote that nothing closes makes it fail |
| AclText.SplitClosed | bench/redis-src/sds.c:1097-1101 | A closed quotation at the end of a word is read without its quotes |
| AclText.SplitCut | bench/redis-src/sds.c:1123-1137 | White space cuts a word in two tokens |
| AclText.SplitShift | bench/redis-src/sds.c:1056-1164 | What is read does not depend on the text in front |
| AclText.SplitOn | bench/redis-src/sds.c:1056-1164 | Text that splits on its own gives the same tokens in front of more text |
| Quoting.CatRepr | bench/redis-src/sds.c:960-984 | Appends the quoted form of any byte string |
| Quoting.QuotedSplit | bench/redis-src/sds.c:1037-1055 | The splitter reads a quoted string as one token, the string itself |
| Quoting.QuotedRoundTrip | bench/redis-src/sds.c:1037-1055 | Any byte strings, quoted and joined by blanks, are read back |
| Quoting.NeedsRepr | bench/redis-src/sds.c:993-1004 | True exactly when some character is special |
| Quoting.UnquotedExact | bench/redis-src/sds.c:986-1004 | A string said to need no quotes is read back without them exactly when it is not empty and holds no single quote |
| Quoting.SingleExact | bench/redis-src/sds.c:1108-1122 | Between single quotes text without one stands for itself, or splitting fails when it ends in a backslash |
| Quoting.BackslashReads | bench/redis-src/sds.c:1084-1097 | A backslash between double quotes: five control characters, any other character as it is |
| Quoting.HexReads | bench/redis-src/sds.c:1074-1083 | Two hexadecimal digits of either case are one byte |
| Acl.CoveredTouches | bench/redis-src/acl.c:606-610 | A rule that would be deleted touches no bit outside those of the new rule |
| Acl.CompactedReplay | bench/redis-src/acl.c:624-632 | Appending after deleting the covered rules replays like just appending |
| Acl.SetSound | bench/redis-src/acl.c:1041-1216 | Each operation without a blank leaves a text of rules that rebuild the bitmap from its +@all or -@all base |
| Acl.RulesRebuild | bench/redis-src/acl.c:1041-1216 | So does every sequence of such operations |
| Acl.Selector.ChangePerm | bench/redis-src/acl.c:636-650 | Exactly the bits of the command and its subcommands change |
| Acl.Selector.SetCategory | bench/redis-src/acl.c:658-672 | Exactly the bits of the category change |
| Acl.Selector.UpdateCommandRules | bench/redis-src/acl.c:624-632 | The text without the covered rules, then the new one, for any text |
| Acl.Selector.SetSelector | bench/redis-src/acl.c:1041-1216 | For every selector and every operation: bitmap, text, flags and verdict as the operation says |
| AclLaws.CommandWords | bench/redis-src/acl.c:1058-1071 | allcommands and +@all set every bit, nocommands and -@all none, in any letter case; no rules are left and no flag changes |
| AclLaws.FlagWords | bench/redis-src/acl.c:1042-1057 | allkeys, resetkeys, allchannels, resetchannels, ~* and &* change just their flag |
| AclLaws.CommandSet | bench/redis-src/acl.c:1133-1204 | +name and -name for a name in the table set and clear just the bits of the name and its subcommands |
| AclLaws.FirstArgSet | bench/redis-src/acl.c:1183-1194 | A first argument changes no bit |
| AclLaws.CommandRefused | bench/redis-src/acl.c:1133-1204 | Any other name is refused and nothing changes |
| AclLaws.CategorySet | bench/redis-src/acl.c:1205-1210 | A category in the table sets or clears just the bits of its members; any other is refused and nothing changes |
| AclLaws.RulesAfter | bench/redis-src/acl.c:578-632 | The rules about the same name, or about something behind it and a bar, leave the text, the others keep their order, the new one is last |
| AclLaws.KeyPatternSet | bench/redis-src/acl.c:1072-1115 | A ~ pattern is accepted exactly with a length, without white space, and while not all keys are allowed |
| AclLaws.PercentSet | bench/redis-src/acl.c:1080-1097 | So is a % pattern that names reading, writing or both once |
| AclLaws.ChannelPatternSet | bench/redis-src/acl.c:1116-1132 | The same for & and channels |
| AclLaws.OtherRefused | bench/redis-src/acl.c:1211-1214 | Anything else is refused |
| Acl.Selector.Describe | bench/redis-src/acl.c:764-817 | For every selector: aborts exactly when the text does not split, a token is refused or another bitmap is rebuilt; otherwise base and rules |
| Acl.FaithfulDescribed | bench/redis-src/acl.c:764-817 | With rules that are each read back as they are, describing never aborts |
| Acl.DescribeExact | bench/redis-src/acl.c:785-813 | After such rules and one more of any text, describing aborts exactly when that one, split on its own, does not lead from what the others rebuild to the bitmap it left |
| Acl.FirstArgExact | bench/redis-src/acl.c:785-813 | For a rule that touches no bit: exactly when it is not read back from the bitmap it meets |
| Acl.RunExact | bench/redis-src/acl.c:764-817 | The same after every sequence of operations whose rules are read back as they are, whatever the last operation |
| Acl.TameDescribed | bench/redis-src/acl.c:764-817 | With rules free of quotes and white space describing never aborts |
| Acl.RunDescribed | bench/redis-src/acl.c:764-817 | So after every sequence of operations whose command rules are |
| Acl.QuoteAborts | bench/redis-src/acl.c:785-788 | A first argument with an unclosed quote is accepted, and describing aborts |
| Acl.BlankAborts | bench/redis-src/acl.c:790-793 | So with white space before something that is no operation |
| Acl.MismatchAborts | bench/redis-src/acl.c:805-813 | So with white space before a rule that takes something from a selector that may do everything |
| Acl.SelectQuote | bench/redis-src/acl.c:1142-1194 | The operation +select followed by a bar and a double quote, on a new selector |
| Acl.SelectQuoted | bench/redis-src/acl.c:785-793 | With the quotes closed around the argument of +select describing does not abort |
| Acl.SelectGet | bench/redis-src/acl.c:1142-1194 | The operation +select, bar, a -get, on a selector that may do everything |
| SlotRanges.CountPermuted | bench/redis-src/cluster.c:1898-1914 | How often a slot is covered does not depend on the order of the ranges |
| SlotRanges.MergeCounts | bench/redis-src/cluster.c:1916-1923 | Merging adjacent ranges keeps how often each slot is covered |
| SlotRanges.NormalCounts | bench/redis-src/cluster.c:1911-1924 | So does sort-and-merge, for any order qsort gives equal keys |
| SlotRanges.NormalCanonical | bench/redis-src/cluster.c:1911-1924 | The result is canonical exactly when the ranges were pairwise disjoint |
| SlotRanges.CanonicalUnique | bench/redis-src/cluster.c:1931-1939 | A set of slots has one canonical array |
| SlotRanges.EqualDecides | bench/redis-src/cluster.c:1927-1940 | With one array disjoint, normal forms are equal exactly when both are disjoint and hold the same slots |
| SlotRanges.AcceptExact | bench/redis-src/cluster.c:1787-1822 | Without reversed ranges the verdict is: in bounds and pairwise disjoint |
| SlotRanges.AcceptChains | bench/redis-src/cluster.c:1797-1819 | The merged array passes exactly when every maximal chain of the sorted one spans slots in order and in bounds and no two spans meet |
| SlotRanges.MergeSpans | bench/redis-src/cluster.c:1916-1923 | Merging leaves the spans of the maximal chains, in order |
| SlotRanges.ReversedExact | bench/redis-src/cluster.c:1797-1819 | The verdict is right when no reversed range is merged, and wrong exactly when one is and the maximal chains of the sorted array all pass |
| SlotRanges.ReversedSwallowed | bench/redis-src/cluster.c:1916-1923 | A family of arrays with a reversed range that is accepted and loses slots |
| SlotRanges.TiesAmbiguous | bench/redis-src/cluster.c:1898-1914 | Two different ranges with equal starts have two normal forms |
| SlotRanges.SwapMatters | bench/redis-src/cluster.c:1916-1923 | Swapping two neighbours that start together and differ changes the merged array |
| SlotRanges.TiesExact | bench/redis-src/cluster.c:1898-1924 | A well-formed array has one normal form exactly when ranges of it that start together are equal |
| SlotRanges.BuiltCanonical | bench/redis-src/cluster.c:1954-1984 | Appending increasing slots builds a canonical array of just those slots |
| SlotRanges.BuiltIsNormal | bench/redis-src/cluster.c:1954-1984 | It is the form that sort-and-merge gives any disjoint array of the same slots |
| SlotRanges.SlotRangeArray.SortAndMerge | bench/redis-src/cluster.c:1911-1924 | The array in place becomes a normal form of what it was |
| SlotRanges.SlotRangeArray.MergeInPlace | bench/redis-src/cluster.c:1916-1923 | The loop that writes behind itself computes the merge |
| SlotRanges.SlotRangeArray.Validate | bench/redis-src/cluster.c:1798-1820 | The table scan accepts exactly arrays in bounds, not reversed and disjoint; an error is about the first range at fault, bounds before order before repetition, and names its lowest repeated slot |
| SlotRanges.FirstFaultUnique | bench/redis-src/cluster.c:1798-1820 | The verdict on the first range at fault is unique |
| SlotRanges.SlotRangeArray.NormalizeAndValidate | bench/redis-src/cluster.c:1787-1822 | The whole validator: on the count, on the merged array, on the chains of the sorted one, and on the array given |
| SlotRanges.SlotRangeArray.Push | bench/redis-src/cluster.c:1963-1984 | The last range is extended or a new one added, growing the buffer |
| SlotRanges.SlotRangeArray.Contains | bench/redis-src/cluster.c:1987-1992 | True exactly when some range holds the slot |
| SlotRanges.IsEqual | bench/redis-src/cluster.c:1927-1940 | With one array disjoint, true exactly for equal slot sets of two disjoint arrays; true for two orders of one array in which ranges that start together are equal |
| BitFields.SpelledValue | bench/redis-src/bitops.c:520-532 | A field whose bits are those of v reads as v modulo 2^bits |
| BitFields.FieldSame | bench/redis-src/bitops.c:520-532 | A field whose bits did not change reads as before |
| BitFields.SetUnsigned | bench/redis-src/bitops.c:500-513 | The field reads as the value modulo 2^bits and no bit outside it changes |
| BitFields.GetUnsigned | bench/redis-src/bitops.c:520-532 | The number the field's bits spell |
| BitFields.SetSigned | bench/redis-src/bitops.c:515-518 | As SetUnsigned, for a signed value |
| BitFields.GetSigned | bench/redis-src/bitops.c:534-555 | The value in signed range congruent to the field |
| BitFields.ReduceUnique | bench/redis-src/bitops.c:649-667 | Only one value in range is congruent to a given one |
| BitFields.StoredReading | bench/redis-src/bitops.c:515-555 | A value in range survives being stored and read back |
| BitFields.UnsignedCheck | bench/redis-src/bitops.c:579-614 | Below 64 bits: 0 exactly when the sum fits, clamped under SAT, congruent under WRAP |
| BitFields.UnsignedCheck64 | bench/redis-src/bitops.c:579-582 | At 64 bits the check is right exactly when it neither adds below 2^63 nor takes from above it |
| BitFields.SignedCheck | bench/redis-src/bitops.c:616-669 | At every width: 0 exactly when the sum fits, clamped under SAT, congruent under WRAP |
| BitFields.UnsignedStore | bench/redis-src/bitops.c:2049-2052 | Checking a value to be stored, in range or not |
| BitFields.SignedStore | bench/redis-src/bitops.c:2014-2017 | The same for signed values, right exactly when the distance to the maximum fits in 63 bits or the policy wraps |
| BitFields.FarBelow | bench/redis-src/bitops.c:624-637 | Otherwise a value below the minimum is saturated to the maximum |
| BitFields.CheckFits | bench/redis-src/bitops.c:2001-2054 | What SET and INCRBY store is the exact, clamped or congruent value |
| BitFields.IncrementFits | bench/redis-src/bitops.c:2001-2054 | INCRBY leaves the sum, or what the policy makes of it |
| BitFields.SetFits | bench/redis-src/bitops.c:2001-2054 | SET leaves its argument, or what the policy makes of it, but for the saturated case of BitFields.FarBelow |
| BitFields.Execute | bench/redis-src/bitops.c:1987-2067 | One SET or INCRBY: the field afterwards is the argument or the sum, or what the policy makes of it; SET replies the old value and INCRBY the new; nothing else changed, nothing at all on a refusal |
| BitFields.PaddedInside | bench/redis-src/bitops.c:2075-2091 | Inside the string the zero padding does not show |
| BitFields.Fetch | bench/redis-src/bitops.c:2068-2101 | One GET: any field of any string, zero beyond its end, through the nine-byte copy |
| BitScan.AndSplit | bench/redis-src/bitops.c:124-137 | A word and a mask cut at the same bit are masked part by part |
| BitScan.LanesCount | bench/redis-src/bitops.c:124-137 | The three masking steps leave each byte's bit count in its lane |
| BitScan.SevenWords | bench/redis-src/bitops.c:138-144 | Sum, multiplication and shift of seven words count 28 bytes; no lane overflows |
| BitScan.CountIsSetBits | bench/redis-src/bitops.c:52-61 | Summing the byte table counts the set bits |
| BitScan.Popcount | bench/redis-src/bitops.c:67-152 | The number of set bits, for every length and alignment |
| BitScan.LoadSkips | bench/redis-src/bitops.c:423-433 | A word is all zeroes or all ones exactly when its bytes are |
| BitScan.FieldBits | bench/redis-src/bitops.c:440-447 | The bits of the loaded word are the buffer's bits, first byte on top |
| BitScan.SkipBytes | bench/redis-src/bitops.c:409-421 | No match in the bytes skipped |
| BitScan.SkipWords | bench/redis-src/bitops.c:423-433 | No match in the words skipped, and why it stopped |
| BitScan.LoadWord | bench/redis-src/bitops.c:439-447 | The next eight bytes as one big-endian word, zero padded |
| BitScan.ScanWord | bench/redis-src/bitops.c:456-475 | The first matching bit of the word; the panic is unreachable |
| BitScan.Bitpos | bench/redis-src/bitops.c:392-477 | The first matching bit for every buffer and alignment; -1 if no bit is set, the length if none is clear |
| BitScan.FirstUnique | bench/redis-src/bitops.c:385-391 | That position is unique |

## Left out

- Reservation and page commitment (`mmap`, RSS): the arena is a reserved, 16-aligned range of 4 GiB below 2^63.
- The counters `scan_steps`, `remove_steps` and `real_bytes`, except for the scan bound of the segregated malloc.
- FirstFit.Allocator.Malloc: sizes that are not sane are excluded; FirstFit.Allocator.MallocWrapped says what the code does there.
- Segregated.Allocator.Malloc: likewise; see Segregated.Allocator.MallocWrapped.
- Arenas.Arena.MallocWrapped: a tag stored outside the reservation is reported by a flag; past the end it has no further effect, since C leaves it undefined.
- FirstFit.Allocator.Calloc: products malloc's arithmetic gets wrong are excluded, because zeroing then runs past the arena (FirstFitHeap.CallocOverruns).
- Segregated.Allocator.Calloc: likewise (SegregatedHeap.CallocOverruns).
- Segregated.Allocator.Realloc: sizes malloc's arithmetic gets wrong are excluded; the copy would run past whatever malloc returned.
- FirstFit.Allocator.Realloc: sizes that the 32-bit mask turns into 0 are excluded and treated in FirstFit.Allocator.ReallocMaskedOut; other masked sizes are covered and FirstFit.ReallocHolds says when they are too small.
- Traces.RunBoth: commands for more than 4 GiB stop the run with a verdict of their own; the first-fit realloc would mask them.
- FirstFit.Allocator.FreeTwice: that memory is byte for byte as after the first call is asserted between the two calls, since a postcondition cannot name that moment; FirstFit.Allocator.Free states it as a postcondition of the second call.
- Per-size counters and the printed report of `bench/analyze_trace.py`; malformed log lines.
- Writes outside a live payload and any other undefined use by the client.
- The pattern lists of `ACLSetSelector`, which only count here in that a pattern is accepted or refused, the first-argument table (its rules are kept as text and touch no bit) and the ALLCOMMANDS flag.
- Acl.SetSound: operations whose first argument holds a blank are excluded, since the rules in the text are then no longer the operations; Acl.Selector.SetSelector covers them, and Acl.FirstArgExact says what comes of them.
- Acl.FirstArgExact: the rules already in the text must each be read back as they are; two rules that only together close a quote are covered by Acl.Selector.Describe alone.
- The size of the command bitmap (1024) and its reserved bit come from a header that is not part of this model, and the nested command dictionaries are one table with parent links.
- SlotRanges.SlotRangeArray.Push: an array with no range is excluded, since the code reads the element before the first; the absent array is the constructor `Append`.
- SlotRanges.IsEqual: for arrays with different ranges that start together the answer depends on the order qsort gives them (SlotRanges.TiesExact).
- Slot-range strings, iteration over slots, and key deletion in `cluster.c`.
- The POPCNT, NEON and AVX paths of bit counting; words are loaded little-endian there and the unsigned long has 64 bits.
- BitFields.CheckSigned: the subtraction of C that may overflow wraps around; its result is not used then.
- Quoting.CatRepr: `isprint` and `isspace` are those of the C locale.
- The rest of the Redis snapshot, `bench/driver.c` beyond its four wrappers, `bench/plot_results.py` and `src/test.c`.
