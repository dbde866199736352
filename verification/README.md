# Verified models of the iterators, allocators and text routines of the library

The library is written in C over arrays and untyped memory. Each of the modules below models one of its parts in that
form — the same arrays, loops, branches and machine-integer widths — and proves it against a mathematical reading of
its state:

| part | modules | what its state means |
|---|---|---|
| permutation iterator | `Selections`, `InversionParity`, `PermutationIterator` | the cycle counters are the Lehmer code of the indices, and hence the lexicographic rank of the selection on display |
| combination iterator | `Counting`, `Combinations`, `CombinationIterator` | the counters are a combination, and a sum of binomial coefficients is its lexicographic rank |
| multidimensional iterator | `MixedRadix`, `MultidimIterator` | the offsets are the digits of a number in mixed radix, the flat index |
| stack allocator | `StackBlocks`, `StackAllocator`, `StackSession` | boundary tags and guards write down a sequence of used and free blocks that tile the memory below the top |
| arena allocator | `ArenaBlocks`, `ArenaChunk`, `ArenaAllocator`, `ArenaLedger`, `ArenaSession` | headers and links threaded through the memory write down disjoint live blocks and an address-ordered list of free ones; to its users the arena is a map from blocks to what they stored |
| block allocator | `BlockBits`, `BlockAllocator` | the bits in front of the blocks are the set of used indices |
| integer formatting | `Numerals`, `IntegerFormat`, `IntegerWriter`, `IntegerReading` | the bytes are the images of units: padding, a sign, and grouped digits that spell the value |
| string splitting | `Splitting`, `StringSplit` | the views in the output are the pieces between leftmost delimiters |

`MachineIntegers` has the unsigned types and their wrap-around, `Arithmetic` facts about products and quotients, and
`AllocatorInternals` the rounding that all allocators share.

Where code and documentation disagree the model follows the code:

- `include/cutl/iterators/permutation_iterator.h:83` and `:93` give the number of permutations as n!/r!. The code
  counts n!/(n-r)!, which is also the number of selections that a run shows. The two agree exactly for n = 2r and n = 1
  (`PermutationIterator.DocumentedCountIsRight`).
- `src/allocators/arena_allocator.c:51-52` says that the order of the free list allows adjacent blocks to be merged.
  `free_list_insert` has branches for that, but looks at the block behind the new one where it means the one in front
  of it, and compares with a link where it means a block. No two blocks are ever merged (`ArenaBlocks.MergesNever`).
- `include/cutl/iterators/multidim_iteration.h:82-83` says that stepping back past the start resets all offsets, and
  stepping past the end likewise ends at the end. A step so large that a sum wraps around moves the other way instead
  (`MixedRadix.AdvanceCanGoBack`, `MixedRadix.RecedeCanGoForward`); the members `MovesForward` and `MovesBack` say
  exactly when, and how far.
- `src/string/format.c:496` asserts that the buffer has been filled. When the digits of the value fill up their last
  group and leading zeros follow, separators that were counted are not written (`IntegerReading.LosingCountHappens`);
  `IntegerWriter.WhatIsWritten` says exactly when and how many bytes are missing.
- `src/allocators/block_allocator.c:96` adds 7 to an unsigned count. With 2^32 - 7 blocks or more the sum wraps
  around, and no block is ever found (`BlockAllocator.Allocator.Exhausted`, `BlockAllocator.ExhaustedFromTheStart`).
- `include/cutl/allocators/stack_allocator.h:39` and `:59` promise memory or an error code. `allocate` accepts some
  requests that cannot fit, as their size wraps around (`StackAllocator.HugeRequestIsAccepted`), `reallocate` hands back any live block for
  2^64 - 1 bytes (`StackAllocator.HugeResizeIsKept`) and grows the topmost block past the end of the stack
  (`StackAllocator.GrowthLeavesTheStack`). `StackAllocator.AllocateTestIsRight` and `StackAllocator.ReallocateIsRight`
  say exactly when they are right.
- The counting functions return numbers that are too small where a product or the result does not fit
  (`CombinationIterator.TwentyOfTwentyOneAreMiscounted`, `CombinationIterator.FiveOf255DoNotFit`,
  `PermutationIterator.ThirteenAreTooMany`).

## Model

| member | source | states |
|---|---|---|
| Counting.MultiplyDown | src/iterators/combination_iterator.c:87-97 | the shared counting loop, whose counter and product may both wrap around, yields the falling product n(n-1)...(n-r+1) modulo 2^64 for every n and r |
| Counting.FallingIsFactorialQuotient | src/iterators/permutation_iterator.c:149-162 | that product is n!/(n-r)! |
| Counting.FallingIsBinomialTimesFactorial | src/iterators/combination_iterator.c:87-102 | that product is r! times the binomial coefficient defined by Pascal's rule |
| Selections.RankOrdersSelections | src/iterators/permutation_iterator.c:86-128 | the mixed-radix rank of ordered selections compares exactly as lexicographic order does, and tells selections apart |
| Selections.AdjacentRanksAreSuccessors | src/iterators/permutation_iterator.c:86-128 | nothing lies between two selections of adjacent ranks |
| Selections.DigitCountsLaterSmaller | src/iterators/permutation_iterator.c:86-128 | in a permutation, a digit of the rank counts the later entries that are smaller |
| Selections.RotationSortsTail | src/iterators/permutation_iterator.c:99-109 | rotating the largest entry of a tail behind an ascending rest sorts the tail |
| Selections.SwapRaisesDigit | src/iterators/permutation_iterator.c:110-123 | swapping in the next larger entry of an ascending tail raises the digit by one and keeps the tail ascending |
| Selections.OdometerStepOnPermutation | src/iterators/permutation_iterator.c:86-128 | a raised digit with maximal digits behind it that start over gives the selection of the next rank |
| Selections.RankedListIsComplete | src/iterators/permutation_iterator.c:86-128 | a list by rank of full length holds every injective sequence exactly once, in lexicographic order |
| Selections.ListingHasNoGaps | src/iterators/permutation_iterator.c:86-128 | no selection lies between two neighbours of such a list |
| InversionParity.SortingSwapsHaveInversionParity | src/iterators/permutation_iterator.c:130-147 | any sequence of swaps that sorts distinct numbers has as many members, modulo two, as they have inversions |
| InversionParity.SelectionSort | src/iterators/permutation_iterator.c:130-147 | such a sequence of swaps exists for every selection |
| InversionParity.DigitsAddUpToInversions | src/iterators/permutation_iterator.c:130-147 | the digits of the rank of a whole permutation add up to its inversions |
| PermutationIterator.PermutationIterator.constructor | src/iterators/permutation_iterator.c:48-54 | a new iterator is valid, running, and shows the selection of rank zero |
| PermutationIterator.PermutationIterator.Reset | src/iterators/permutation_iterator.c:56-73 | from any contents of the array, the iterator is at rank zero |
| PermutationIterator.PermutationIterator.RotateTail | src/iterators/permutation_iterator.c:102-107 | the rotation that reads one cell past the indices moves the entry to the end and changes neither counters nor selection |
| PermutationIterator.PermutationIterator.SwapAndShow | src/iterators/permutation_iterator.c:112-120 | the swap and the refresh of the displayed selection |
| PermutationIterator.PermutationIterator.Next | src/iterators/permutation_iterator.c:86-128 | keeps indices a permutation with an ascending rest, the selection their beginning and the counters their Lehmer code; adds exactly one to the rank, or finishes behind the last selection |
| PermutationIterator.PermutationIterator.CurrentSign | src/iterators/permutation_iterator.c:130-147 | the parity of every way to sort the selection by swaps, and for whole permutations that of the sum of n-k-cycles[k] |
| PermutationIterator.PermutationIterator.Enumerate | src/iterators/permutation_iterator.c:56-128 | a run from reset shows every ordered selection exactly once in lexicographic order and is done after n!/(n-r)! steps |
| PermutationIterator.CyclesSpellDigits | src/iterators/permutation_iterator.c:130-147 | the counters of a whole permutation add up to the digits of its rank |
| PermutationIterator.CalculateCount | src/iterators/permutation_iterator.c:149-162 | n!/(n-r)! modulo 2^64, for every n and r |
| PermutationIterator.TotalCount | src/iterators/permutation_iterator.c:163-171 | the number of permutations modulo 2^32, which is the number itself if and only if it fits the return type |
| PermutationIterator.ThirteenAreTooMany | src/iterators/permutation_iterator.c:163-171 | the permutations of 13 elements do not fit it |
| PermutationIterator.DocumentedCountIsRight | include/cutl/iterators/permutation_iterator.h:83 | n!/r! is n!/(n-r)! if and only if n = 2r or n = 1 |
| PermutationIterator.DocumentedCountIsWrong | include/cutl/iterators/permutation_iterator.h:83 | for n = 3 and r = 1 there are 3 and not 6 |
| Combinations.RankOrdersCombinations | src/iterators/combination_iterator.c:114-154 | the rank compares exactly as lexicographic order does, and tells combinations apart |
| Combinations.CombinationRankBounds | src/iterators/combination_iterator.c:114-154 | every rank is below the number of combinations |
| Combinations.CombinationSuccessor | src/iterators/combination_iterator.c:55-85 | raising the last entry that can be raised, and restarting those behind it, adds one to the rank |
| Combinations.RankedCombinationsAreComplete | src/iterators/combination_iterator.c:55-85 | a list by rank of full length holds every combination exactly once, in lexicographic order |
| CombinationIterator.CalculateCount | src/iterators/combination_iterator.c:87-102 | a product followed by truncating divisions is the binomial coefficient if and only if the product does not wrap around, and is never larger; what comes out is always the product modulo 2^64, divided by r! |
| CombinationIterator.TotalCount | src/iterators/combination_iterator.c:104-112 | the number of combinations, if and only if product and result fit; otherwise the same quotient modulo 2^32 |
| CombinationIterator.TwentyOfTwentyOneAreMiscounted | src/iterators/combination_iterator.c:87-102 | 21 combinations whose count is wrong, as the product does not fit |
| CombinationIterator.FiveOf255DoNotFit | src/iterators/combination_iterator.c:104-112 | a count that is computed right and does not fit the return type |
| CombinationIterator.GetIndex | src/iterators/combination_iterator.c:114-154 | the rank of the combination, modulo 2^32, where the inner counts fit 64 bits and their arguments a byte |
| CombinationIterator.GetIndexDifference | src/iterators/combination_iterator.c:155-228 | the difference of two ranks, from either side, without overflow as long as the counts behind the common beginning stay below 2^31 |
| CombinationIterator.SetToIndex | src/iterators/combination_iterator.c:235-260 | fills in the combination of that rank if and only if the index is a rank, and leaves the cells behind it alone |
| CombinationIterator.IndexOfUnranked | src/iterators/combination_iterator.c:114-154 | ranking undoes unranking for every index that is a rank |
| CombinationIterator.UnrankedIndex | src/iterators/combination_iterator.c:235-260 | unranking undoes ranking for every combination whose rank fits the return type |
| CombinationIterator.CombinationIterator.constructor | src/iterators/combination_iterator.c:19-25 | a new iterator shows the combination of rank zero |
| CombinationIterator.CombinationIterator.Reset | src/iterators/combination_iterator.c:27-40 | from any contents of the counters, the iterator is at rank zero |
| CombinationIterator.CombinationIterator.Next | src/iterators/combination_iterator.c:55-85 | adds exactly one to the rank and keeps the counters ascending, finishes behind the last combination, and does nothing after that |
| CombinationIterator.CombinationIterator.Enumerate | src/iterators/combination_iterator.c:27-85 | a run from reset shows every combination exactly once in lexicographic order and is done after as many steps as there are combinations |
| CombinationIterator.CombinationIterator.JumpTo | src/iterators/combination_iterator.c:230-233 | the iterator runs on from the combination of the given rank; without elements it stays where it is |
| MixedRadix.FlatSplits | src/iterators/multidim_iteration.c:170-181 | the flat index is what the outer axes spell times the stride, plus what the inner axes spell |
| MixedRadix.FlatDetermines | src/iterators/multidim_iteration.c:170-181 | inside the grid the flat index determines all offsets |
| MixedRadix.FlatDeterminesOuter | src/iterators/multidim_iteration.c:170-181 | so it does where the last offset may equal the size, among positions that agree on the inner axes and stay inside the axis in front of them |
| MixedRadix.AtStart | src/iterators/multidim_iteration.c:147-156 | the flat index is zero exactly at the start |
| MixedRadix.AtEnd | src/iterators/multidim_iteration.c:158-168 | the flat index is the total size exactly at the end |
| MixedRadix.AdvancedFlat | src/iterators/multidim_iteration.c:77-112 | carrying moves the flat index to min(flat + steps * stride, total) if and only if no sum wraps around; otherwise the flat index falls, by 2^64 steps along some axis less the steps asked for; inner axes stay as they are, or the iterator is at its end |
| MixedRadix.AdvancedAxes | src/iterators/multidim_iteration.c:77-112 | inner axes keep their offsets, and the axis itself gets one below its size, unless the iterator ends up at its end |
| MixedRadix.AdvanceLosesSteps | src/iterators/multidim_iteration.c:84-90 | where a sum wraps around, exactly 2^64 steps along its axis are missing from the flat index |
| MixedRadix.AdvanceFitsInside | src/iterators/multidim_iteration.c:77-112 | only a step that leaves the grid can wrap around |
| MixedRadix.RecededFlat | src/iterators/multidim_iteration.c:114-145 | borrowing moves the flat index to max(flat - steps * stride, 0) if and only if no sum wraps around; otherwise it does not fall, but gains 2^64 steps along some axis less the steps asked for; inner axes stay as they are, or the iterator is at its start |
| MixedRadix.RecededAxes | src/iterators/multidim_iteration.c:114-145 | inner axes keep their offsets unless the iterator ends up at its start, and after at least one step the axis itself has an offset below its size |
| MixedRadix.RecededInside | src/iterators/multidim_iteration.c:114-145 | any steps back along the last axis, also from the end, lead inside the grid |
| MixedRadix.RecedeGainsSteps | src/iterators/multidim_iteration.c:134-138 | where a sum wraps around, exactly 2^64 steps along its axis are added to the flat index |
| MixedRadix.RecedeFitsInside | src/iterators/multidim_iteration.c:114-145 | only a step back past the start can wrap around |
| MixedRadix.BorrowIsExact | src/iterators/multidim_iteration.c:134-138 | the rounded-up quotient leaves a valid offset that accounts for the step, unless its sum wraps around, and then nothing is borrowed |
| MixedRadix.RecedeUndoesAdvance | src/iterators/multidim_iteration.c:77-145 | inside the grid, receding by the same steps restores every offset after an advance that did not saturate |
| MixedRadix.AdvanceUndoesRecede | src/iterators/multidim_iteration.c:77-145 | and the other way round |
| MixedRadix.AdvanceCanGoBack | src/iterators/multidim_iteration.c:84-90 | a step that should lead to the end and goes back by one |
| MixedRadix.RecedeCanGoForward | src/iterators/multidim_iteration.c:134-138 | a step back that should lead to the start and goes forward by one |
| MultidimIterator.Iterator.Init | src/iterators/multidim_iteration.c:34-45 | the given sizes, and every offset zero, whatever was in the array |
| MultidimIterator.Iterator.InitDim | src/iterators/multidim_iteration.c:46-54 | one axis more, although sizes and offsets overlap the ones before |
| MultidimIterator.Iterator.InitAllDims | src/iterators/multidim_iteration.c:46-54 | setting up axis by axis comes to the same as setting up all at once |
| MultidimIterator.Iterator.SetToStart | src/iterators/multidim_iteration.c:56-64 | the position with flat index zero |
| MultidimIterator.Iterator.SetToEnd | src/iterators/multidim_iteration.c:66-75 | the position whose flat index is the total size |
| MultidimIterator.Iterator.Advance | src/iterators/multidim_iteration.c:77-112 | the loop keeps the iterator valid, moves the flat index as `AdvancedFlat` says, and leaves inner axes alone unless it ends at the end |
| MultidimIterator.Iterator.Recede | src/iterators/multidim_iteration.c:114-145 | the loop keeps the iterator valid, moves the flat index as `RecededFlat` says, leaves inner axes alone unless it ends at the start, and always leads inside the grid along the last axis |
| MultidimIterator.Iterator.IsAtStart | src/iterators/multidim_iteration.c:147-156 | true exactly at flat index zero |
| MultidimIterator.Iterator.IsAtEnd | src/iterators/multidim_iteration.c:158-168 | true exactly at the total size |
| MultidimIterator.Iterator.GetFlatIndex | src/iterators/multidim_iteration.c:170-181 | the flat index, with no wrap-around on the way, in every reachable position |
| MultidimIterator.Iterator.TotalSize | src/iterators/multidim_iteration.c:210-219 | the product of all sizes |
| MultidimIterator.Iterator.VisitAll | src/iterators/multidim_iteration.c:77-112 | stepping along the last axis from the start visits every position of the grid exactly once in the order of the flat index |
| AllocatorInternals.RoundUpIsLeastMultiple | src/allocators/allocator_internal.h:90-93 | rounding up gives the least multiple of the alignment |
| AllocatorInternals.WrappedRoundUpIsExact | src/allocators/allocator_internal.h:90-93 | it is exact unless the result does not fit, and then comes out as zero |
| StackBlocks.FreeingAllEmptiesTheStack | src/allocators/stack_allocator.c:103-162 | once every live block of a list has been freed, in whatever order, the list is empty |
| StackAllocator.Stack.FreeingEverything | src/allocators/stack_allocator.c:103-162 | so it is for the blocks of any stack, whether guards are damaged or not |
| StackSession.FreeInOrder | src/allocators/stack_allocator.c:103-162 | freeing all live blocks of a stack one by one, in any order, succeeds each time and brings the top to zero |
| StackBlocks.PopFreeKeepsBelow | src/allocators/stack_allocator.c:103-162 | freeing drops no block below a used one |
| StackBlocks.FreeingEndsOneLife | src/allocators/stack_allocator.c:103-162 | freeing a block ends the life of this block and of no other |
| StackAllocator.TotalIsComputedExactly | src/allocators/stack_allocator.c:28-29 | the size of a block is computed exactly if and only if it fits its type |
| StackAllocator.TotalIsComputedModulo | src/allocators/stack_allocator.c:28-29 | whatever wraps around on the way, it is computed modulo 2^64 |
| StackAllocator.AllocateTestIsRight | src/allocators/stack_allocator.c:28-32 | `allocate` accepts exactly what fits, if and only if top and true total add up below 2^64, or wrap around to a sum that does not fit either |
| StackAllocator.HugeRequestIsAccepted | src/allocators/stack_allocator.c:28-32 | a request of almost 2^64 bytes that `allocate` accepts wherever two guards fit |
| StackAllocator.SizeTestIsExact | src/allocators/stack_allocator.c:31-32 | taken by itself, the comparison agrees with that of the true sum if and only if the sum does not wrap around |
| StackAllocator.AdjustedSizeIsExact | src/allocators/stack_allocator.c:178 | allocate and reallocate size a block alike, although they add and round in a different order, also where sums wrap around |
| StackAllocator.PlanArithmetic | src/allocators/stack_allocator.c:176-222 | `reallocate` keeps a block exactly if it is large enough or the total size does not fit 64 bits |
| StackAllocator.ReallocateIsRight | src/allocators/stack_allocator.c:176-222 | `reallocate` keeps, grows, moves or refuses a block as its memory allows, if and only if the block is large enough, or the total size fits 64 bits and the grown block fits the stack or, off the top, the sum for a new block does no harm |
| StackAllocator.HugeResizeIsKept | src/allocators/stack_allocator.c:178-185 | every live block is handed back for 2^64 - 1 bytes |
| StackAllocator.GrowthLeavesTheStack | src/allocators/stack_allocator.c:191-208 | a block that fills a stack of 64 bytes grows to 96 |
| StackAllocator.Stack.Allocate | src/allocators/stack_allocator.c:26-50 | a used block more on top, with tags, guard bytes of 0xCC around memory that is large enough and less than an alignment too large, exactly if it fits; contents and guards of all other blocks stay, damaged ones included |
| StackAllocator.Stack.CheckBlock | src/allocators/stack_allocator.c:66-101 | reports a damaged guard, then a block that is already free, and nothing else |
| StackAllocator.Stack.PopFreeBlocks | src/allocators/stack_allocator.c:125-159 | the popping loop drops exactly the free blocks on top, never reports corruption, and ends because the top falls |
| StackAllocator.Stack.Deallocate | src/allocators/stack_allocator.c:103-162 | marks the block free and drops the free run on top; a live address never reports a mismatch or corruption while guards are intact; errors change nothing |
| StackAllocator.Stack.Reallocate | src/allocators/stack_allocator.c:164-226 | foreign addresses, damaged guards and free blocks are reported; otherwise the block is kept, grown, moved or refused as planned, every byte of the old memory that the new size has room for is in the new memory, and every other block keeps contents and guards |
| StackBlocks.MovedBytes | src/allocators/stack_allocator.c:216-218 | the memory handed back begins with the first min(old, new) bytes of the old memory, counted from sizes, info records and guards |
| StackBlocks.OtherBytes | src/allocators/stack_allocator.c:164-226 | all other blocks hold what they held in every byte between their guards |
| StackAllocator.GuardBytes | src/allocators/allocator_internal.h:159-208 | guards stand exactly if all bytes between info records and user memory are 0xCC |
| StackAllocator.Stack.GrowTop | src/allocators/stack_allocator.c:191-208 | growing in place keeps tiling, tags and guards |
| StackAllocator.Stack.ClientWrite | src/allocators/stack_allocator.c:26-50 | a client writing inside its block disturbs no tag, guard or other block |
| StackAllocator.Stack.Reset | src/allocators/stack_allocator.c:228-231 | no blocks, and the top at zero |
| StackAllocator.Stack.RestoreTop | src/allocators/stack_allocator.c:238-245 | exactly the blocks that were there when the top was saved |
| StackSession.Client.Serve | src/allocators/stack_allocator.c:26-226 | every request of a client — allocating, freeing, resizing in place or by moving, writing, also those that report out of memory — keeps the stack valid and everything below the saved top as it was |
| StackSession.Run | src/allocators/stack_allocator.c:26-226 | over any list of requests the top never falls below the saved one, and is back at it once nothing is held |
| StackSession.SaveRunRestore | src/allocators/stack_allocator.c:233-245 | saving, any list of requests, and restoring gives back blocks, tags, guards and every byte of their contents |
| ArenaBlocks.InsertKeepsCarved | src/allocators/arena_allocator.c:103-132 | linking a piece in keeps the list in strict address order and the blocks apart, and changes nobody's contents |
| ArenaBlocks.RemoveKeepsCarved | src/allocators/arena_allocator.c:161-172 | so does unlinking, which leaves the piece neither live nor free |
| ArenaBlocks.MergesNever | src/allocators/arena_allocator.c:110-131 | neither condition for merging can hold |
| ArenaBlocks.SpareSplits | src/allocators/arena_allocator.c:190-207 | both parts of a split piece are blocks apart from all others, if the rest has the minimum size |
| ArenaBlocks.BumpMakesSpare | src/allocators/arena_allocator.c:209-215 | raising the bump offset passes memory that no block has |
| ArenaBlocks.WriteToLive | src/allocators/arena_allocator.c:300-306 | a client writing inside its block disturbs no header, link or other block |
| ArenaBlocks.SumLiveWithout | src/allocators/arena_allocator.c:300-306 | the sum of all live sizes does not depend on the order of counting |
| ArenaChunk.Chunk.FindPlace | src/allocators/arena_allocator.c:105-108 | where the piece belongs in address order, and the links in front of and behind it |
| ArenaChunk.Chunk.FreeListInsert | src/allocators/arena_allocator.c:103-132 | the piece is in the list at that place, through links in its own memory; both merging branches are dead |
| ArenaChunk.Chunk.FreeListFind | src/allocators/arena_allocator.c:141-153 | the free block that starts there, or that there is none |
| ArenaChunk.Chunk.FreeListRemove | src/allocators/arena_allocator.c:161-172 | the block is gone from the list and nothing else has changed |
| ArenaChunk.Chunk.BlockFromChunk | src/allocators/arena_allocator.c:182-216 | fails exactly if no free block and not the untouched memory can hold the block; takes the first free block that fits before fresh memory, and puts back the rest unless it is too small |
| ArenaChunk.Chunk.Absorb | src/allocators/arena_allocator.c:391-400 | a live block takes over the free block right behind it and keeps its contents |
| ArenaChunk.Chunk.TakeBack | src/allocators/arena_allocator.c:343-360 | the block is free, and every other block keeps its contents |
| ArenaAllocator.WrapTestIsExact | src/allocators/arena_allocator.c:315-318 | the test for wrap-around catches exactly the requests whose total does not fit |
| ArenaAllocator.Arena.GrowthIsLeast | src/allocators/arena_allocator.c:267-272 | the size asked for is the least multiple of the alignment that is not below the block, the largest block so far and the chunk size |
| ArenaAllocator.Arena.Grow | src/allocators/arena_allocator.c:267-290 | an empty chunk in front, of the least aligned size that is not below the block, the largest block so far and the chunk size; capacity raised by it, and nothing changed if the parent refuses |
| ArenaAllocator.Arena.Allocate | src/allocators/arena_allocator.c:308-341 | the parent is asked exactly if no chunk can hold the block, the granted chunk always can, and otherwise the first chunk that can hold it serves it; fails exactly for nothing, for sizes that wrap around and when the parent refuses; one block more is live and counted, no contents change, and failing changes nothing |
| ArenaAllocator.Arena.BlockFromPointer | src/allocators/arena_allocator.c:227-258 | an address in no chunk, or without room for a header in front of it, is mismatched; a used magic number in front is accepted, a free one reported as freed twice, any other one as corrupted |
| ArenaAllocator.Arena.ReportMeans | src/allocators/arena_allocator.c:227-258 | the same four cases for the report that all other operations pass on |
| ArenaAllocator.Arena.LiveIsGenuine | src/allocators/arena_allocator.c:227-258 | addresses of live blocks are reported as good, and those of all free blocks as freed twice |
| ArenaAllocator.Arena.Deallocate | src/allocators/arena_allocator.c:343-360 | null is accepted, errors change nothing, and otherwise exactly this block is no longer live or counted, and giving it back again is reported as freed twice |
| ArenaAllocator.Arena.Resize | src/allocators/arena_allocator.c:362-418 | a block that fits or can absorb the free block behind it stays; otherwise it moves; its contents come along, no other block is disturbed, `used` follows the size |
| ArenaAllocator.Arena.Reallocate | src/allocators/arena_allocator.c:362-418 | a request for nothing gives the block back; any other one is served as by `Resize` |
| ArenaAllocator.Arena.Clear | src/allocators/arena_allocator.c:420-429 | no live and no free blocks, bump offsets and `used` at zero, and the chunks kept |
| ArenaAllocator.Arena.Release | src/allocators/arena_allocator.c:431-445 | no chunks, and all counts at zero |
| ArenaAllocator.Arena.LiveBlocksAreApart | src/allocators/arena_allocator.c:182-216 | any two live blocks lie apart, aligned, of at least the minimum size and below the bump offset of their chunk |
| ArenaLedger.HeldApart | src/allocators/arena_allocator.c:182-216 | the memory handed out for different blocks has not a byte in common |
| ArenaLedger.Allocate | src/allocators/arena_allocator.c:308-341 | one entry more in the map from blocks to contents, of the rounded size; fails for nothing, for sizes that wrap around, and else only if the parent refuses |
| ArenaLedger.Free | src/allocators/arena_allocator.c:343-360 | an entry less, always successful, all other contents as they were, and the address reported as freed twice from then on |
| ArenaLedger.FreeTwice | src/allocators/arena_allocator.c:343-360 | of two attempts to give back a block, the first takes its entry away and the second is reported as freed twice and changes nothing |
| ArenaLedger.ResizeToNothing | src/allocators/arena_allocator.c:365-371 | so it is for a block that is resized to nothing |
| ArenaLedger.GiveBackStray | src/allocators/arena_allocator.c:343-352 | an address that was never handed out, or that of a freed block, is reported and changes no entry |
| ArenaLedger.ResizeStray | src/allocators/arena_allocator.c:373-377 | nor does resizing it |
| ArenaLedger.Clear | src/allocators/arena_allocator.c:420-429 | no entries, and the chunks kept |
| ArenaLedger.Release | src/allocators/arena_allocator.c:431-445 | no entries and no chunks |
| ArenaLedger.Resize | src/allocators/arena_allocator.c:362-418 | the entry begins with all it held before, and all other entries are as they were |
| ArenaLedger.Store | src/allocators/arena_allocator.c:300-306 | a user's write changes one byte of its own entry |
| ArenaSession.Serve | src/allocators/arena_allocator.c:308-445 | every request of a user — allocating, freeing, resizing, also to nothing, writing, stray addresses — keeps the arena valid and leaves all blocks the user does not hold in use with the same contents; clearing and releasing leave no blocks |
| ArenaSession.Run | src/allocators/arena_allocator.c:308-445 | over any list of requests of one user the arena stays valid; unless it is cleared or released, every block that was in use before is still in use and holds the same |
| BlockBits.StateIsRecorded | src/allocators/block_allocator.c:74-89 | setting or clearing one bit changes the state of one block |
| BlockBits.LowestInByte | src/allocators/block_allocator.c:97-107 | the lowest clear bit of a byte belongs to the lowest free block recorded there |
| BlockBits.CountersSuffice | src/allocators/block_allocator.c:24-27 | there is a state for every block, in whole units of the alignment |
| BlockBits.MaskIsPower | src/allocators/block_allocator.c:77 | the mask of state j in its byte is 2 to the power of j |
| BlockAllocator.BlocksAreApart | src/allocators/block_allocator.c:36-39 | blocks do not overlap, start aligned, and lie between the states and the end |
| BlockAllocator.IndexFromOffset | src/allocators/block_allocator.c:164-170 | the index computed from the offset inverts the offset computed from the index, and the remainder is zero for no other offset |
| BlockAllocator.CreationFits | src/allocators/block_allocator.c:278-285 | taking off the states of the first estimate leaves at least one block, and room for the blocks that remain with their states |
| BlockAllocator.Create | src/allocators/block_allocator.c:259-308 | which buffers are refused and why, and that any other one gives a valid allocator with at least one block, as many as the second estimate says, and none in use |
| BlockAllocator.ExhaustedFromTheStart | src/allocators/block_allocator.c:91-135 | an allocator of 2^32 - 1 blocks that is created, has none in use, and hands out none |
| BlockAllocator.Allocator.GetState | src/allocators/block_allocator.c:48-52 | whether the block is in the set of used ones |
| BlockAllocator.Allocator.SetState | src/allocators/block_allocator.c:74-89 | the set of used blocks gains or loses one, bits past the last block stay clear, and memory behind the states is untouched |
| BlockAllocator.Allocator.CheckGuards | src/allocators/allocator_internal.h:181-208 | intact exactly if every guard byte at both ends has the pattern |
| BlockAllocator.GuardBytes | src/allocators/allocator_internal.h:181-208 | the pattern is 0xCC, and the guards are the first and the last bytes of the block |
| BlockAllocator.Allocator.Allocate | src/allocators/block_allocator.c:91-135 | the lowest free block, with guards set and nothing else touched, whatever clients did to other guards; fails if and only if all are used, or there are so many that the count of bytes wraps around |
| BlockAllocator.Allocator.Deallocate | src/allocators/block_allocator.c:157-179 | success exactly for the address of a block with intact guards, which alone is freed; addresses in front of the first user memory or behind the last block are mismatched, all others corrupted, and change nothing |
| BlockAllocator.Allocator.Reallocate | src/allocators/block_allocator.c:181-201 | the same address exactly if the size fits the block or wraps around when rounded up |
| BlockAllocator.Allocator.ClientWrite | src/allocators/block_allocator.c:91-135 | a user writing in its own memory disturbs neither states nor guards |
| BlockAllocator.SizeTestIsExact | src/allocators/block_allocator.c:194-196 | which sizes the test of reallocate takes for small |
| BlockAllocator.HugeSizeLooksSmall | src/allocators/block_allocator.c:194-196 | 2^64 - 1 is one of them |
| Numerals.DigitsSpellTheNumber | src/string/format.c:17-25 | the extracted digits spell the number in the base, each below it and the first not zero |
| Numerals.LeadingZeros | src/string/format.c:352-379 | zeros in front do not change the number |
| Numerals.GroupedKeepsDigits | src/string/format.c:334-382 | grouping keeps all digits in order |
| Numerals.GroupedIsWellGrouped | src/string/format.c:334-382 | separators stand between two digits, exactly where a multiple of the distance follows, and never first or last |
| Numerals.GroupedLength | src/string/format.c:109-118 | n digits in groups of d have (n-1)/d separators between them |
| IntegerFormat.ComputeDigitRequirements | src/string/format.c:58-76 | units and bytes of the digits with their leading zeros |
| IntegerFormat.ComputeIntegerRequirements | src/string/format.c:87-119 | units and bytes of sign, digits and separators |
| IntegerFormat.IntegerLength | src/string/format.c:155-166 | the length in bytes of the whole text |
| IntegerWriter.PadOutput | src/string/format.c:239-278 | all padding on the left, all of it on the right, or half of it on either side with the odd unit on the side that is named; what stands outside of the gap is left alone |
| IntegerWriter.WriteDigits | src/string/format.c:340-352 | the digits of the value in groups, from the right, and where the separator counter stands after them |
| IntegerWriter.WriteLeadingZeros | src/string/format.c:354-379 | leading zeros with the separators that the counter still triggers |
| IntegerWriter.WriteNumber | src/string/format.c:334-382 | stays inside the buffer, and writes the grouped number or, where the counter has passed the distance, zeros without separators |
| IntegerWriter.WhatIsWritten | src/string/format.c:334-382 | what is written is as long as computed if and only if the counter is not lost or the separator is empty, and then it is the text |
| IntegerWriter.LosingCount | src/string/format.c:352-379 | the counter is lost exactly if there are digits, fewer than asked for, that fill up their last group |
| IntegerWriter.TextIsLaidOut | src/string/format.c:239-278 | padding, sign, number, padding: as many units on either side as the direction says, differing by at most one when on both sides, and the sign directly in front of the number |
| IntegerWriter.PadBytes | src/string/format.c:217-226 | padding is the bytes of its unit over and over |
| IntegerWriter.FormatInteger | src/string/format.c:455-497 | refuses a buffer of any other length and leaves it alone; fills one of the computed length exactly with the text, which ends with sign and number for padding on the left and begins with them for padding on the right; otherwise falls short by the missing separators |
| IntegerReading.TextSpellsTheValue | src/string/format.c:455-497 | the digit units evaluate to the absolute value and are as many as asked for; the sign is there exactly when it should be; padding reaches the size asked for |
| IntegerReading.RoundTrip | src/string/format.c:455-497 | the value can be read back from the bytes, whenever digits and minus sign are single distinct bytes that occur nowhere else |
| IntegerReading.TextsDiffer | src/string/format.c:455-497 | different values have different texts |
| IntegerReading.LosingCountHappens | src/string/format.c:352-379 | a value and specification for which a separator is counted and not written |
| Splitting.FindIsFirst | src/string/strings.c:63-81 | the search finds the leftmost occurrence, or that there is none |
| Splitting.JoinUndoesSplit | src/string/strings.c:195-223 | joining the pieces with the delimiter gives the string back |
| Splitting.CutPiecesAreFree | src/string/strings.c:195-223 | no piece contains the delimiter |
| Splitting.SplitCuts | src/string/strings.c:195-223 | behind each piece stands the first delimiter from its beginning on, and none in the last piece |
| Splitting.SplitUndoesJoin | src/string/strings.c:195-223 | splitting finds exactly such pieces again when they have been joined |
| Splitting.CutsAreApart | src/string/strings.c:195-223 | the cuts are occurrences that do not overlap, one fewer than pieces |
| Splitting.CutsAreMost | src/string/strings.c:195-223 | no choice of occurrences that do not overlap has more of them |
| StringSplit.Advance | src/string/strings.c:126-134 | the rest of the view, and the null view when nothing is left |
| StringSplit.HasSubstring | src/string/strings.c:63-81 | the leftmost position, modulo 2^32 as a signed number, or -1 |
| StringSplit.Split | src/string/strings.c:195-223 | as many pieces as there is room for are in the output array, in order, all of them are counted, and the slots behind are untouched |

## Left out

- PermutationIterator.PermutationIterator.Next: may not be called on a finished iterator, as the first counter would
  run below zero; and there is at least one element to choose (r >= 1).
- CombinationIterator.GetIndex: says nothing where `InnerCountsFit` does not hold: when an inner product does not fit 64
  bits, or n exceeds 256, as the arguments of the inner counts are cut down to bytes.
- CombinationIterator.GetIndexDifference: requires the same of the entries behind the common beginning, and counts of as
  many of the n elements below 2^31, as its signed sums could overflow otherwise.
- MultidimIterator.Iterator.Advance: requires axes of at least one element, fewer than 2^32 axes, and a total size
  below 2^64.
- StackAllocator.Stack.Allocate: requires that what the code accepts fits, as the block would not lie inside the stack
  otherwise; `AllocateTestIsRight` is the exact condition.
- StackAllocator.Stack.Reallocate: requires that a block which the code grows or moves stays inside the stack;
  `ReallocateIsRight` is the exact condition.
- StackSession.Client.Serve: drops requests for handles the client does not hold, and those which these conditions
  exclude. A block that is kept for a size that does not fit 64 bits stays with its client at its old size.
- ArenaAllocator.Arena.Allocate: requires that the size of a new chunk does not wrap around.
- ArenaSession.Serve: drops requests for blocks the user does not hold, grants of memory that is taken, and stray
  addresses behind a used header.
- ArenaAllocator.Arena.Deallocate: requires that the address is not a stale one whose header has been overwritten
  since, by a client or by a later block.
- BlockAllocator.Create: requires a block size of at least one, a buffer that holds the header, and that the number of
  blocks it settles for fits the 32 bits it is stored in.
- BlockAllocator.Allocator.Deallocate: requires, as the code asserts, that the block at the address is in use.
- IntegerWriter.FormatInteger: requires a value above the smallest one, a base of at least two with a text for each
  digit, one of the four padding directions, and sizes that fit 32 bits.
- StringSplit.Split: requires a nonempty delimiter, as an empty one is found in front of every nonempty string without
  end, and lengths below 2^31, as positions are reported as signed 32-bit integers.
- Conservation of bytes in the arena: a rest too small to be a block is dropped, and free blocks are not merged.
- Addresses are offsets into one array per stack, chunk or block allocator, plus a base address; headers, tags and links
  are typed cells that stand at their first byte. Struct padding and reading a tag as bytes are not modelled.
- The memory the arena itself lives in, and what its parent allocator does with it; the parent is a parameter that
  grants memory apart from all chunks or refuses.
- src/allocators/fixed_size_allocator.c: its search for a free block compares a sentinel with another count than the
  one it was set to, and its defragmentation leaves absorbed entries in the array, so that the invariants its
  documentation states do not hold.
- Floating-point and exponential formatting: they depend on library calls and floating-point rounding.
- src/string/output_stream.c and src/string/string_stream.c: file output and callbacks.
- src/allocators/os_allocator.c and src/allocators/allocators.c: system calls, and dispatch through function pointers.
- The wrappers that turn results into null pointers, default specifications, printing, assertion macros and error texts.
- Trimming of whitespace, reverse search and `string8_subspan` in src/string/strings.c; cutf is not part of this model.
