# Verified models of the stutils core

stutils is a C utility library: sorting, a hash dictionary, a label alphabet, packed bit arrays,
segment lists, a heap, a block cache, a semaphore, varints and string printers. This project
models the algorithms whose correctness rests on something the C code never checks, in the form
the C code has (arrays written in place, objects with fields, loops), and proves what they promise.

| file | what it models |
|---|---|
| `Qsort.dfy`, `Ordering.dfy` | `st_qsort`: explicit stack, unguarded scans, unguarded insertion sort |
| `Permutation.dfy` | `st_permutation`: the swap-based enumerator |
| `SortedInsert.dfy` | `st_insert`: insertion into a sorted array |
| `DictModel.dfy`, `DictLinks.dfy`, `DictVisit.dfy`, `Masks.dfy`, `Dict.dfy`, `DictOrder.dfy`, `DictRuns.dfy`, `DictDefault.dfy` | `st_dict`: the finite map it stands for, its linked storage, what callbacks are shown, masks, the operations, the age of its keys, whole runs, small keys under the default hash |
| `Alphabet.dfy` | `st_alphabet`: labels and indices over `st_dict` |
| `BitStream.dfy`, `ByteOps.dfy`, `NBit.dfy` | `st_nbit_set`, `st_nbit_get`: units of 1 to 30 bits across bytes |
| `SegmentLists.dfy`, `Segments.dfy`, `RingUnions.dfy` | `st_int_seg_union`: merging half-open segments in place, on a ring, and in any order |
| `HeapOrder.dfy`, `Heap.dfy` | `st_heap` with its index of positions |
| `CacheModel.dfy`, `BlockCache.dfy` | `st_block_cache`: reference counts, free list, pools, addresses |
| `Semaphore.dfy` | `st_sem_wait`, `st_sem_post` as an interleaving of their steps |
| `Varint.dfy` | `st_varint` on buffers and streams |
| `CStrings.dfy`, `Shell.dfy`, `Escape.dfy` | `st_escape`, `st_escape_args`, and the shell that reads them back |
| `Numbers.dfy` | `st_ll2str`, `st_str2ll` |
| `Util.dfy` | shared definitions |

## How the models are built

Each method that changes state is proved against a function of the old state, and that function's
properties are lemmas. A dictionary, for example, has three layers: `Dict.Dictionary` updates head
slots, pool and links in place; a list of buckets says what a seek meets in which order; a finite map
says what the caller sees. `DictRuns.Execute` connects the outermost two over any list of calls.

* Widths are explicit where they matter: 32-bit ids and hashes, 64-bit sizes and varints, `long long`
  overflow (None), the truncating division and remainder of C.
* C strings are character lists without NUL; buffers are arrays, with NUL written out.
* A callback is a function value; a traversal callback answers whether it accepts the entry it is shown, and NULL
  accepts all. `MurmurHash2` is an arbitrary function.
* Plain `char` is signed on some platforms and unsigned on others; `Varint` takes which one as a parameter.
* Where the C code would write outside an array, the method answers `overrun` and the model stops there.
* Out of memory and failing pthread calls are not modelled.

## Where the code does less than it says

Each item names the members that show the failure and the exact condition under which the promise holds.

* `st_dict_clear` gives up where its callback rejects an entry. The dictionary is still in order if and only if that
  entry is the first one shown (`Dict.Dictionary.Clear`), which is the oldest live key's; so a clear without asserts
  breaks it exactly when an entry is rejected, but not the oldest key's (`DictOrder.BreaksIff`). After two adds and a
  clear that rejects the second entry, a seek for the second key fails, an update of it succeeds, and the next key
  added is written past the clear list (`DictRuns.BrokenClear`).
* The asserts in `st_dict_clear` and `st_dict_traverse` reject an overflow node with one zero sign,
  although `st_dict_add` accepts such a key. In a build without `NDEBUG` (`checked`), with a callback that accepts
  everything, they go off if and only if a live key with a zero half is not the oldest of its hash class
  (`Dict.Dictionary.Clear`, `DictOrder.AnyTripsIff`). Two adds and a clear reach that (`DictRuns.AssertsCanTrip`);
  runs whose keys have no zero half never do (`DictOrder.FullKeysNeverTrip`).
* `st_dict_create` accepts a growth step of 0, and the pool's new size is an unsigned int that can wrap. A new key in
  an occupied bucket is then written past a full pool: in one call exactly as `Dict.Dictionary.Add` and `Update` say,
  and in a run if and only if more keys come into occupied hash classes than the pool can give nodes
  (`DictOrder.OverrunIff`; clears give none back). With step 0 and one head, three adds reach it
  (`DictRuns.OverrunExample`).
* These three are all that can cut a run of dictionary calls short, and `DictOrder.CutOf` tells each from the live
  keys alone (`DictRuns.Execute`, `DictOrder.WhenCut`).
* `st_alphabet_add_label` keeps 255 bytes of a label. After a successful add `st_alphabet_get_index` finds
  the label if and only if it is shorter than 256 bytes (`Alphabet.AddThenFind`); a longer one can be added
  again and again, each time as a new label with the same text (`Alphabet.LongLabelTwice`,
  `Alphabet.LongLabelExample`).
* `st_alphabet_get_label` lets `index == label_num` through, to a slot holding no label; with a full
  alphabet that slot is past the array (`Alphabet.Alphabet.GetLabel`).
* `st_block_cache_fetch` hands out a free block by its id and leaves it on the free list: the cache is in order
  afterwards if and only if the block was in use (`BlockCache.Cache32.Fetch`, `CacheModel.BumpedConsistentIff`). The
  held block is then handed out as new (`CacheModel.HandedOutTwice`, `BlockCache.HeldBlockAsNew`), or its return
  written past the free list (`BlockCache.Cache32.Return`, `BlockCache.ReturnPastTheList`).
* `st_escape_args` returns 0 with arguments missing when the buffer ends just behind a word
  (`Escape.SilentLoss`; exact condition in `Escape.EscapeThenSplit`), and does not terminate its text
  behind the last blank: what the buffer held there becomes part of the line
  (`Escape.OldBytesBecomeAWord`; harmless if and only if those bytes hold no word,
  `Escape.FullLineReadsBackIff`). Its comment asks for text that can be pasted into a shell, but a word
  such as `#` is printed bare and reads as a comment (`Escape.NumberSignIsLost`,
  `Escape.ReadsBackWithCommentsIff`).
* `st_ll2str` checks its room with a `size_t` subtraction that wraps: the suffix is written past the buffer
  if and only if the buffer is not empty and no longer than the suffix (`Numbers.NumberToStr`,
  `Numbers.OneByteOverrun`). A number without a suffix is cut silently by a short buffer; the cut text
  reads back right if and only if the number is 0 (`Numbers.CutReadsBackIff`).
* `st_varint_encode_uint64`, `st_escape_args` and, for a word that needs quotes, `st_escape` write into an empty
  buffer (`Varint.EncodeTo`, `Escape.EscapeArgs`, `Escape.EscapeOne`: exactly then).
* The encoding loops of `st_varint` test a value against a plain `char`. Where that is unsigned, only bit 7 is
  tested: what is written reads back if and only if every seven-bit group above the lowest, up to the last, is odd
  (`Varint.ReadsBackIff`, `Varint.UnsignedEncodesIff`). 256 is written as a single zero byte
  (`Varint.UnsignedLosesValue`).
* With a tight capacity the result of `st_int_seg_union` depends on the order of the input
  (`RingUnions.OrderCanMatterWhenTight`). Every order succeeds, and leaves one and the same array, if and only
  if the old list joined with any part of the input, and with any one further wrapping segment up to the
  seam, fits the capacity (`RingUnions.OneResultIff`).

One difference is of wording only: `st_insert` is documented to return the inserted position, while the
code returns 0 and delivers the position through `pos`. The model follows the code.

## Model

| member | source | states |
|---|---|---|
| Qsort.Sort | src/st_utils.c:226-388 | for every length a `size_t` holds and every total preorder: terminates, sorted, a permutation of the input |
| Qsort.MedianOfThree | src/st_utils.c:257-265 | the three samples end up in order, a permutation within the segment |
| Qsort.ScanUp | src/st_utils.c:274-275 | the unguarded upward scan stops at or before any element known not to be below the pivot |
| Qsort.ScanDown | src/st_utils.c:277-278 | likewise downwards |
| Qsort.WallsAfterScan | src/st_utils.c:272-297 | the scans keep both walls, and without a swap they cross by exactly one |
| Qsort.Exchange | src/st_utils.c:280-296 | swap and pivot tracking: the pivot keeps its value at the tracked position, the walls advance by one |
| Qsort.Collapse | src/st_utils.c:272-300 | one round stays inside [lo, hi], needs no bound check, and narrows the gap |
| Qsort.Partition | src/st_utils.c:245-300 | splits the segment into parts on either side of a pivot, at most one element between them |
| Qsort.PartitionKeepsCuts | src/st_utils.c:245-300 | every boundary already separating the array still does, and both new part boundaries do |
| Qsort.NextSegsCovered | src/st_utils.c:302-331 | small parts may be dropped: any six consecutive positions meet a boundary or lie in a pending segment |
| Qsort.NextSegsHalve | src/st_utils.c:317-330 | pushing the larger part keeps the segment at height k at no more than n / 2^k elements |
| Qsort.StackFits | src/st_utils.c:196-205 | so the stack with its sentinel never exceeds 64 entries |
| Qsort.NextSegsLessWork | src/st_utils.c:241-332 | every iteration lowers the remaining work, so the loop ends |
| Qsort.Advance | src/st_utils.c:307-330 | pop, keep one part, or push the larger and go on with the smaller, on the explicit stack |
| Qsort.PartitionPhase | src/st_utils.c:231-333 | leaves blocks of at most five elements, ordered between blocks |
| Qsort.MinIsEarly | src/st_utils.c:345-357 | nothing beyond the first five slots is below slot 0, so a least element is among them |
| Qsort.PlaceMinimum | src/st_utils.c:345-360 | a least element of the whole array is put at slot 0 |
| Qsort.InsertionPoint | src/st_utils.c:367-371 | the unguarded insertion scan never passes slot 0 and finds the place |
| Qsort.RotateDown | src/st_utils.c:372-385 | the element moves down, those between move up by one, nothing else changes |
| Qsort.InsertionPhase | src/st_utils.c:362-387 | with the least element in front, ends sorted and a permutation |
| Permutation.AllRange | src/st_utils.c:392-410 | shows the callback the arrangements in order up to the first failure; restores the array without one |
| Permutation.Permute | src/st_utils.c:412-416 | the same from position 0, with the C return values |
| Permutation.ArrangementsMember | src/st_utils.c:402-408 | exactly the rearrangements of the tail are enumerated |
| Permutation.ArrangementsDistinct | src/st_utils.c:402-408 | none comes up twice |
| Permutation.ArrangementsCount | src/st_utils.c:392-410 | there are n! of them |
| Permutation.ArrangementsOfPositions | src/st_utils.c:402-408 | positions are moved the same way whatever the elements are |
| Permutation.EveryArrangementOnce | src/st_utils.c:392-416 | for n >= 1 the calls correspond one to one to all n! permutations of positions, equal elements or not |
| SortedInsert.Insert | src/st_utils.c:419-460 | all outcomes: no capacity, comparison error, element present, no room, inserted; array contents and position in each |
| SortedInsert.InsertedOutcomes | src/st_utils.c:426-460 | with any comparison: the array is left alone, or gains the new element at the position, keeping every old one; an equal element stays; refused exactly for no capacity, a comparison error where the scan ends, or no room |
| SortedInsert.InsertedKeeps | src/st_utils.c:419-460 | stays ascending, gains exactly the element at the reported position; fails exactly for lack of room |
| SortedInsert.AscendingUnique | src/st_utils.c:419-460 | an ascending array is determined by its elements |
| SortedInsert.InsertEachKeeps | src/st_utils.c:419-460 | any run keeps the array ascending and within its capacity, loses nothing and adds only what was inserted |
| SortedInsert.InsertEachHoldsIff | src/st_utils.c:419-460 | the array ends up with exactly the old and the inserted elements if and only if the distinct ones fit |
| SortedInsert.InsertionOrderIrrelevant | src/st_utils.c:419-460 | while the distinct elements fit, order and repetition of the insertions do not matter |
| SortedInsert.IntCmpOrders | src/st_int.c:550-558 | `st_int_cmp` meets the conditions of the lemmas above |
| Dict.HighestBitMaskOnes | src/st_utils.c:57-76 | mask + 1 is a power of two |
| Dict.HighestBitMaskBelow | src/st_utils.c:57-76 | and the largest one not above num |
| Dict.HighestBitMaskAbove | src/st_utils.c:57-76 | with overflow: the least all-ones value covering num |
| Dict.HashSimple | src/st_dict.c:51-54 | the default hash stays within the table |
| Dict.HashSign1 | src/st_dict.c:61-64 | likewise |
| Masks.AndIsRemainder | src/st_dict.c:51-64 | `&` with a mask 2^k - 1 is the remainder by 2^k |
| Masks.MaskBits | src/st_dict.c:122-123 | every 32-bit word with m & (m + 1) == 0, but all ones, is such a mask |
| Dict.HashesAre | src/st_dict.c:51-64 | the two hashes are `(sign1 + sign2) & mask` on 32 bits and `sign1 & mask` |
| Dict.Create | src/st_dict.c:87-175 | an empty dictionary of mask + 1 heads that hashes by the given callback under that mask, or by the sum of the signs for NULL; fails exactly for bad numbers |
| DictDefault.FillAndClear | src/st_dict.c:51-616 | with the default hash, keys (i, 0) with 0 < i < heads take no overflow node, traverse shows them in ascending i, and a clear with the asserts on completes |
| Dict.Dictionary.AddIn | src/st_dict.c:177-201 | takes the next pool index, growing the pool with its nodes kept; writes past the pool exactly when it is full and the growth step is 0 or wraps the 32-bit size |
| Dict.Dictionary.OccupyHead | src/st_dict.c:217-229 | a vacant head takes the entry and goes to the end of the clear list; past that list exactly when it is full |
| Dict.Dictionary.Store | src/st_dict.c:216-243 | head slot if vacant, otherwise between head and chain; the bucket gains the entry there; an overflow node is taken exactly in an occupied bucket, and overruns exactly an exhausted pool |
| Dict.Dictionary.Add | src/st_dict.c:203-246 | fails exactly on (0,0) and on a key the bucket already holds; else the bucket gains the entry; the pool is overrun exactly by a new key in an occupied bucket when it is exhausted, and `cur_index` and pool size are exact |
| Dict.Dictionary.AddNoSeek | src/st_dict.c:248-284 | adds without looking, failing exactly on (0,0); overruns exactly in an occupied bucket when the pool is exhausted |
| Dict.Dictionary.Seek | src/st_dict.c:286-323 | the first entry of the bucket the equality accepts |
| Dict.Dictionary.SeekAt | src/st_dict.c:296-322 | on any head whose chain can be read: that entry, and nothing behind a vacant head |
| Dict.Dictionary.Walk | src/st_dict.c:636-660 | update's walk, whether the head is occupied or not, ends at the first entry accepted or at the end of the chain |
| DictLinks.StaleReads | src/st_dict.c:636-660 | behind a head emptied by clear that walk meets the stale link if there is one, no other, and finds nothing |
| Dict.Dictionary.Update | src/st_dict.c:618-685 | changes the value of the first accepted entry by the callback, or adds the key; overruns exactly as add does |
| Dict.Dictionary.Clear | src/st_dict.c:552-616 | shows the listed buckets' entries in order up to the first one an assert or the callback objects to; completed, no entry is left and `node_num` is 0; stopped by the callback, the dictionary is in order exactly when that entry was the first one shown; refused exactly without a clear list |
| Dict.Dictionary.Traverse | src/st_dict.c:505-550 | shows all entries in bucket order up to the first one an assert or the callback objects to |
| DictVisit.VisitMeans | src/st_dict.c:505-616 | everything before the first objection is shown, and a rejected entry too; without an objection everything is |
| DictVisit.VisitAccepting | src/st_dict.c:505-616 | with a callback that accepts everything only an assert stops the walk, exactly when there is an overflow entry with a zero half |
| DictLinks.ChainsDisjoint | src/st_dict.c:236-242 | live chains share no pool node |
| DictLinks.LinkNode | src/st_dict.c:232-243 | linking a new node in keeps all chains descending and below `cur_index` |
| DictLinks.ClearBucket | src/st_dict.c:571-610 | emptying a bucket leaves one harmless stale link and touches no other bucket |
| DictLinks.ListMore | src/st_dict.c:226-229 | the clear list keeps naming each occupied head exactly once |
| DictLinks.AllCleared | src/st_dict.c:571-615 | when the list is worked off, nothing is left and the count is 0 |
| DictModel.StepRefines | src/st_dict.c:203-323 | add, seek, update, clear: the same answer as a finite map, and the results still correspond, for any hash |
| DictRuns.Apply | src/st_dict.c:203-685 | one call on the real dictionary answers as on the finite map, or is cut short exactly as the live keys say |
| DictRuns.Execute | src/st_dict.c:203-685 | every run of calls answers as the finite map does and `node_num` counts its keys; it is cut short exactly at the first call that the live keys mark: a failed assert, a clear that leaves a broken dictionary, a write past the pool |
| DictRuns.CreateAndExecute | src/st_dict.c:87-685 | the same from creation on, for every growth step and every hash callback, under that callback's values, with the final dictionary standing for the final map; for keys without a zero half and callbacks that accept everything it is cut short exactly when more keys come into occupied hash classes than the pool can give nodes |
| DictOrder.BucketsAre | src/st_dict.c:203-685 | the map and the age of its keys determine every bucket, hence what clear and traverse show and in which order |
| DictOrder.ShowMeans | src/st_dict.c:552-616 | a clear that completes has met no rejection among the live entries; one that stops has, and at the first entry shown exactly when that of the oldest key is rejected |
| DictOrder.BreaksIff | src/st_dict.c:571-610 | without asserts a clear breaks the dictionary exactly when some live entry is rejected, but not that of the oldest key |
| DictOrder.HarmlessNeverBreak | src/st_dict.c:571-610 | callbacks that accept everything never break it in any run |
| DictOrder.OverrunIff | src/st_dict.c:177-243 | over a run the pool is overrun exactly when the keys that came into an occupied hash class outnumber the nodes it can still give |
| DictOrder.LimitStays | src/st_dict.c:181-193 | growing by a step does not change the size the pool can grow to |
| DictOrder.WhenCut | src/st_dict.c:87-685 | which runs no assert, no callback and no overrun cuts short |
| DictRuns.BrokenClear | src/st_dict.c:571-610 | a real dictionary after a clear that rejects its second entry: a seek for that key fails, an update succeeds, the next add to the head writes past the clear list |
| DictRuns.OverrunExample | src/st_dict.c:177-201 | three adds to a dictionary created with growth step 0 that end in a write past the pool |
| DictOrder.StepOrdered | src/st_dict.c:203-685 | after every operation each bucket holds its hash class: the oldest key in the head slot, then the others from the newest back |
| DictOrder.AnyTripsIff | src/st_dict.c:540-597 | the asserts go off exactly on a live half-zero key that is not the oldest of its hash class |
| DictOrder.FullKeysNeverTrip | src/st_dict.c:540-597 | a run that adds and updates only keys without a zero half is never cut short, whatever the hash |
| DictRuns.AssertsCanTrip | src/st_dict.c:540-597 | two adds and a clear on a real dictionary that end in the assert |
| Alphabet.UnsignableIff | src/st_alphabet.c:33-48 | the sign is (0,0) exactly for the empty label and for one longer than 8 bytes whose first half hashes to 0 with seed 1 and the rest with seed 2 |
| Alphabet.SameSignIff | src/st_alphabet.c:44-46 | two labels longer than 8 bytes have one sign exactly when both halves hash alike |
| Alphabet.Stored | src/st_alphabet.c:162-163 | a label is stored whole exactly when it is shorter than 256 bytes |
| Alphabet.SeekAgrees | src/st_alphabet.c:83-107 | whatever signs or hashes collide, a seek delivers a label filed under the sign with the sought text, and fails exactly when there is none |
| Alphabet.ShortMatches | src/st_alphabet.c:83-107 | among labels that fit their slots that is the label itself, the plain list's answer |
| Alphabet.AddKeepsIndexed | src/st_alphabet.c:161-177 | adding a label keeps every label filed under the sign of the text it was asked for with |
| Alphabet.Alphabet.Create | src/st_alphabet.c:109-146 | an empty alphabet; fails exactly for max <= 0 |
| Alphabet.Alphabet.GetIndex | src/st_alphabet.c:196-211 | a matching label if there is one, for labels of any length; the plain list's answer while all labels fit |
| Alphabet.Alphabet.AddLabel | src/st_alphabet.c:148-178 | for labels of any length: a matching index, refusal, or the next index, and the new list; with room an unknown label is refused exactly when it has no sign; as on the plain list while all labels fit |
| Alphabet.Alphabet.GetLabel | src/st_alphabet.c:187-194 | the label for an index in use; which other indices are let through |
| Alphabet.AddAll | src/st_alphabet.c:148-178 | a whole run of adds of any labels on the object; the run on the plain list while all labels fit |
| Alphabet.AddAllKeeps | src/st_alphabet.c:148-178 | over a run: labels distinct, the list after each part of the run a prefix of the final one, answers stable |
| Alphabet.AskedGrows | src/st_alphabet.c:148-178 | the list only grows at its end, for labels of any length: ids are dense and in first-insertion order |
| Alphabet.FoundIffStored | src/st_alphabet.c:148-211 | for labels of any length: a text is found exactly when some successful add was of that text, or of a longer label with these first 255 bytes and equally hashing halves |
| Alphabet.RunHolds | src/st_alphabet.c:148-178 | a run from the empty alphabet ends with the first `max` of the distinct labels that have a sign, in the order of their first appearance |
| Alphabet.AcceptedIff | src/st_alphabet.c:148-178 | while these fit, exactly the adds of labels without a sign fail |
| Alphabet.IndexOfLabel | src/st_alphabet.c:187-211 | get_index undoes get_label |
| Alphabet.FoundIffAdded | src/st_alphabet.c:148-211 | a label is found exactly when some add of it succeeded; while all fit, exactly when it was added and has a sign |
| Alphabet.ShortLabelsAreAdded | src/st_alphabet.c:33-48 | only lack of room refuses a label of 1 to 8 bytes |
| Alphabet.AddThenFind | src/st_alphabet.c:148-211 | a label just added is found, under the index the add returned, exactly when it is shorter than 256 bytes |
| Alphabet.LongLabelTwice | src/st_alphabet.c:148-211 | adding a longer one twice makes two labels with one text, and looking it up finds neither |
| Alphabet.LongLabelExample | src/st_alphabet.c:148-211 | a label of 256 bytes with the indices 0 and 1, one text of 255 bytes in both slots, and no index when looked up |
| NBit.GetInByteBits | src/st_bit.c:42-46 | the value of the bits [s, s + n) of a byte |
| NBit.PutInByteBits | src/st_bit.c:48-52 | clearing and or-ing replaces exactly those bits |
| NBit.Set | src/st_bit.c:54-90 | as a bit stream, exactly the unit's bits become those of val mod 2^u, for every alignment, and every other bit stays |
| NBit.Get | src/st_bit.c:92-121 | the big-endian value of the unit's bits |
| NBit.SetThenGet | src/st_bit.c:54-121 | a set reads back val mod 2^u, every other unit reads as before |
| NBit.UnitsDetermineBits | src/st_bit.c:92-121 | equal units mean equal bits: the array is its units |
| NBit.UnitOfNumber | src/st_bit.c:92-121 | with the bytes as one big-endian number, the unit at `pos` is that number shifted right by the bits behind the unit, mod 2^u |
| ByteOps.GetExprIs | src/st_bit.c:42-46 | the C expression for reading bits of a byte is the arithmetic NBit uses, for every start and length |
| ByteOps.PutExprIs | src/st_bit.c:68-70 | clearing and or-ing in a value of n bits likewise |
| ByteOps.ClearExprIs | src/st_bit.c:48-52 | the C expression for clearing bits likewise |
| SegmentLists.InsertCovers | src/st_int.c:294-378 | the reference insertion covers the old points and [s, e), nothing else |
| SegmentLists.InsertIsCanonical | src/st_int.c:294-378 | it keeps segments non-empty, sorted and strictly separated |
| SegmentLists.CanonicalUnique | src/st_int.c:294-378 | a point set has one such list |
| SegmentLists.InsertedBetween | src/st_int.c:310-338 | the shifting branch produces the reference list |
| SegmentLists.MergedRange | src/st_int.c:340-377 | the merging branch does |
| Segments.UnionInsert | src/st_int.c:294-378 | the array becomes the reference list; fails, unchanged, exactly for bad arguments or when that list exceeds the capacity |
| Segments.PartsCover | src/st_int.c:391-416 | the straight parts of a ring segment cover exactly its points (s + k) mod size |
| Segments.RingInsert | src/st_int.c:391-416 | one round inserts those parts |
| Segments.InsertAllIff | src/st_int.c:380-420 | a union succeeds exactly when every list on the way fits, and then leaves the uncapped list |
| Segments.RingUnion | src/st_int.c:380-420 | all rounds in place, stopping at the first overflow; success exactly when every list on the way fits |
| RingUnions.UnionPoints | src/st_int.c:380-420 | a successful union covers exactly the old points and all ring points |
| RingUnions.OrderIrrelevant | src/st_int.c:380-420 | any two orders of the input that succeed leave the identical array |
| RingUnions.EnoughCapacity | src/st_int.c:380-420 | a slot for every straight part is enough |
| RingUnions.FreeIsUnion | src/st_int.c:294-420 | the uncapped list is the canonical list of the old points and the parts' points |
| RingUnions.EveryOrderSucceedsIff | src/st_int.c:380-420 | every order succeeds exactly when the old list joined with any part of the input, and one further wrapping segment up to the seam, fits |
| RingUnions.OneResultIff | src/st_int.c:380-420 | then and only then every order leaves the identical array |
| RingUnions.OrderCanMatterWhenTight | src/st_int.c:380-420 | an input whose orders differ |
| HeapOrder.SwapUp | src/st_heap.c:84-108 | an exchange with the parent moves the only broken spot up |
| HeapOrder.SwapDown | src/st_heap.c:131-158 | an exchange with the smaller child moves it down |
| HeapOrder.RootIsLeast | src/st_heap.c:195-227 | the root of an ordered heap is least |
| HeapOrder.DecreasedBreaksUp | src/st_heap.c:65-112 | after one key has decreased, fixup at its position restores the order |
| HeapOrder.IncreasedBreaksDown | src/st_heap.c:114-162 | after one has increased, fixdown does |
| HeapOrder.SwapIndex | src/st_heap.c:91-103 | an exchange with both index updates keeps `heap_index[data_arr[p]] == p` |
| Heap.IndexedHeap.Fixup | src/st_heap.c:65-112 | order restored, same objects, index exact; error exactly for a bad index |
| Heap.IndexedHeap.SmallerChild | src/st_heap.c:131-140 | the child chosen is not above its sibling |
| Heap.IndexedHeap.Fixdown | src/st_heap.c:114-162 | likewise downwards |
| Heap.IndexedHeap.Insert | src/st_heap.c:164-193 | gains exactly the object, order and index kept, index slots of others outside the heap unchanged; full exactly without room or index slot |
| Heap.IndexedHeap.Extract | src/st_heap.c:195-227 | a least object leaves, order and index kept, its own index slot -1, those of others outside the heap unchanged; empty exactly for size 0 |
| Heap.Drain | src/st_heap.c:195-227 | extracting until empty delivers all objects in order |
| CacheModel.StepConsistent | src/st_block_cache.c:123-292 | every call keeps the free list exactly the ids with count 0, each once |
| CacheModel.BumpedConsistentIff | src/st_block_cache.c:209-250 | fetching by id does so exactly for ids in use |
| CacheModel.HandedOutTwice | src/st_block_cache.c:209-250 | fetched by its id, the next free block is handed out again by the next fetch of a new one |
| CacheModel.CountsAreOutstanding | src/st_block_cache.c:123-292 | in every run a count is fetches minus returns since the last clear |
| BlockCache.Cache32.SizeIsInUse | src/st_block_cache.c:118-121 | the size is the number of blocks in use |
| CacheModel.NewBlockWasUnused | src/st_block_cache.c:209-250 | a new block is one nobody holds |
| BlockCache.Cache32.Clear | src/st_block_cache.c:123-139 | every id free again, in order, and the cache in order whatever it was before |
| BlockCache.Cache32.Grow | src/st_block_cache.c:147-180 | one more pool exactly when the free list is empty; every block of the old pools keeps its address |
| BlockCache.Cache32.Fetch | src/st_block_cache.c:209-250 | a new or a given block, with its address, as the model's step; refused exactly for an id past the capacity; old addresses stay; the cache stays in order exactly unless a block not in use is given by its id |
| BlockCache.Cache32.Return | src/st_block_cache.c:252-292 | one reference less, the last one frees the id; refused otherwise; a write past the free list exactly when that is full, never in a cache in order |
| BlockCache.Cache32.Read | src/st_block_cache.c:294-331 | the block exactly when it is in use |
| BlockCache.Cache32.BlocksDisjoint | src/st_block_cache.c:198-207 | blocks lie inside their pool, different ids share no byte |
| BlockCache.Execute | src/st_block_cache.c:123-292 | a run of calls on the object: in order, with its counts the outstanding fetches, up to the first fetch by id of a block with none, and not in order after that |
| BlockCache.HeldBlockAsNew | src/st_block_cache.c:209-250 | a real cache that gives the same address to a fetch by id and then to a fetch of a new block |
| BlockCache.ReturnPastTheList | src/st_block_cache.c:252-292 | a real cache where the return of such a block is written past the free list |
| Semaphore.NextInv | src/st_semaphore.c:61-92 | every step of every interleaving, spurious wake-ups and barging included, keeps the invariant |
| Semaphore.NextBalance | src/st_semaphore.c:61-92 | only calls change what the value will be once all calls under way have done their part: a post by one up, a wait by one down |
| Semaphore.EveryRun | src/st_semaphore.c:61-92 | mutual exclusion; the value is the initial one plus the calls of post, but for those before their increment, minus the calls of wait, but for those before their decrement; value >= 0; if anyone sleeps, value <= woken threads not yet rechecked, and a post under way |
| Semaphore.QuiescentSleepersAreOwed | src/st_semaphore.c:61-92 | when all calls have ended or sleep, a sleeper means that the waits that returned took every unit: the initial value plus the calls of post |
| Semaphore.ReturnedAtRest | src/st_semaphore.c:61-92 | then as many waits have returned as units allowed: all, or the initial value plus the calls of post |
| Semaphore.Progress | src/st_semaphore.c:61-92 | no deadlock: while a call is under way some step is possible |
| Semaphore.ComesToRest | src/st_semaphore.c:61-92 | and without new calls or spurious wake-ups only finitely many are |
| Semaphore.RunsToRest | src/st_semaphore.c:61-92 | so from every state a run reaches the calls under way run to rest, with that many waits returned |
| Varint.RoundTrip | src/st_varint.c:62-102 | decoding a code, whatever follows, gives value and length back |
| Varint.SelfDelimiting | src/st_varint.c:104-164 | no code is a prefix of another's |
| Varint.EncodeInvertsDecode | src/st_varint.c:62-102 | codes are exactly the byte strings without a redundant last byte |
| Varint.DecodeBytes | src/st_varint.c:82-102 | byte i of a code is group i of seven bits of the value, the high bit saying that more follow |
| Varint.EncodeBytes | src/st_varint.c:62-80 | so a value is written lowest group first, with no zero byte at the end of a longer code |
| Varint.LengthIsEncoded | src/st_varint.c:46-60 | the announced length is the length, for every uint64 |
| Varint.ReadsBackIff | src/st_varint.c:62-102 | what the encoding loop writes reads back as the value exactly where plain char is signed, or when every seven-bit group above the lowest, up to the last, is odd |
| Varint.ReadsBackAs | src/st_varint.c:62-102 | for both kinds of plain char what is written reads back as the lowest groups of the value |
| Varint.UnsignedStops | src/st_varint.c:62-80 | where it is unsigned those before the first even group above the lowest |
| Varint.SignedEncodes | src/st_varint.c:62-80 | where plain char is signed the loop writes the code |
| Varint.UnsignedEncodesIff | src/st_varint.c:62-80 | where it is unsigned the loop writes the code exactly for such values |
| Varint.UnsignedLosesValue | src/st_varint.c:33-33 | then 256 is written as one zero byte |
| Varint.EncodeTo | src/st_varint.c:62-80 | for both kinds of plain char: writes those bytes inside the buffer; -1 exactly when it is too small, a write past it exactly when it is empty |
| Varint.DecodeFrom | src/st_varint.c:82-102 | for every buffer: value modulo 2^64 and length of the code, a read past the end, or a shift by 64 or more |
| Varint.EncodeThenDecode | src/st_varint.c:62-102 | the round trip through a buffer, for both kinds of plain char: the value comes back exactly when `Varint.ReadsBackIff` says so |
| Varint.ByteStream.Write | src/st_varint.c:104-129 | appends the bytes, returns how many, for both kinds of plain char |
| Varint.ByteStream.ReadBack | src/st_varint.c:131-164 | value, length and rest; -1 at the end exactly when the code is cut off; a shift by 64 or more exactly for more than ten bytes |
| Varint.ByteStream.ReadEach | src/st_varint.c:131-164 | any list of values written is read back exactly, up to where it ended |
| Varint.EncodeAllDetermines | src/st_varint.c:104-164 | different lists never give the same bytes |
| Escape.NeedQuote | src/st_string.c:247-275 | quotes the empty word and any word with a character off the list |
| Escape.QuotedUnlessPlain | src/st_string.c:247-275 | spelled out: every word but the non-empty ones of letters, digits and `[ ] ~ # ^ _ - + = : . , /` |
| Escape.EscapedIs | src/st_string.c:247-351 | such a word is written unchanged; one with an apostrophe and none of `"`, `` ` ``, `$`, `\` between double quotes; others between single quotes, three characters longer for each apostrophe |
| Escape.JoinedAt | src/st_string.c:353-375 | each word stands where the words before it end, with a blank behind it |
| Escape.Quote | src/st_string.c:281-337 | the quoted word and a NUL if they fit, else -1 and the part that does; nothing outside the window |
| Escape.QuotedIsBody | src/st_string.c:304-333 | in double quotes the escape string is never used |
| Escape.EscapeOne | src/st_string.c:339-351 | 0 exactly when the word, of the length just said, and its NUL fit; a write without a buffer exactly for a word to be quoted |
| Escape.ScanEscaped | src/st_string.c:247-351 | one escaped word, whatever follows, reads as that word, in all three ways of writing it |
| Escape.SplitJoined | src/st_string.c:353-375 | the printed words read back as the words, then whatever follows them |
| Escape.EscapeArgs | src/st_string.c:353-375 | exact text and return value for every argument list and buffer size; a write without a buffer exactly for length 0 |
| Escape.FullLineReadsBackIff | src/st_string.c:353-375 | with old bytes behind the words: reads back exactly when these hold no word |
| Escape.EscapeThenSplit | src/st_string.c:353-375 | zeroed buffer, not empty: the arguments come back exactly when each escaped word and a separator fit; otherwise -1 or a shorter list |
| Escape.ReadsBackWithCommentsIff | src/st_string.c:278-295 | in a shell with comments: exactly when no bare word begins with a number sign |
| Escape.NumberSignIsLost | src/st_string.c:249-251 | a list it fails on |
| Escape.SilentLoss | src/st_string.c:366-369 | a list and buffer where arguments are dropped with result 0 |
| Escape.OldBytesBecomeAWord | src/st_string.c:366-373 | a buffer whose old bytes become an argument |
| Shell.ScanLiteral | src/st_string.c:247-275 | characters that stand for themselves accumulate into the word |
| Shell.ScanSingle | src/st_string.c:283-290 | the single-quoted form, quotes reopened, reads as the word |
| Shell.ScanDouble | src/st_string.c:297-305 | the double-quoted form does |
| Shell.WordlessIffNoWords | src/st_string.c:353-375 | text without words is exactly blanks and line continuations |
| Numbers.Reduce | src/st_string.c:509-523 | the loop ends with the unique factor and power, after six steps at most |
| Numbers.ReducedUnique | src/st_string.c:509-523 | there is one way only to take the base out |
| Numbers.NumberToStr | src/st_string.c:499-547 | the text, a cut number, NULL, or a write past the buffer, exactly by size |
| Numbers.OneByteOverrun | src/st_string.c:527-543 | 1000 into one byte is such a write |
| Numbers.FallThrough | src/st_string.c:446-490 | the switch multiplies once per case from the label on, without overflow unless the result overflows |
| Numbers.StrToNumber | src/st_string.c:429-497 | the number a text stands for |
| Numbers.ReadsAs | src/st_string.c:429-497 | blanks, a plus or none, a number and any text behind: the number times 1000^j for a last character that is the j-th of k M G T P E Z Y, times 1024^j for a last `i` behind the j-th of K M G T P E Z Y, otherwise the number itself; None exactly when a 64-bit number overflows |
| Numbers.NoNumber | src/st_string.c:434-440 | a text with no number in front stands for 0, whatever its suffix |
| Numbers.UnitInside | src/st_string.c:492-494 | `12kxx` is 12 |
| Numbers.TextSpelled | src/st_string.c:509-546 | a printed number is the decimal that is left, and the one suffix that reading multiplies by the power taken out for |
| Numbers.DecimalReadsBack | src/st_string.c:434-434 | `%lld` then `atoll`, with any suffix behind, for every number |
| Numbers.FactorOfText | src/st_string.c:446-494 | a printed suffix multiplies by the power it was printed for |
| Numbers.TextReadsBack | src/st_string.c:429-547 | every 64-bit number reads back from its text, base 1000 and 1024 |
| Numbers.TextLength | src/st_string.c:499-547 | twenty characters are enough |
| Numbers.PrintThenRead | src/st_string.c:429-547 | the round trip through any buffer of at least 21 bytes |
| Numbers.MostNegative | src/st_string.c:499-547 | -2^63 prints as -8Ei |
| Numbers.CutReadsBackIff | src/st_string.c:525-525 | a number cut by a short buffer reads back only if it is zero |

## Left out

- Semaphore: threads, mutex and condition variable are a state machine over the steps of the calls, not objects with methods; the value is not bounded to 32 bits.
- Alphabet.Alphabet.Create: bounds the label count so that pool ids stay within 32 bits.
- BlockCache.Cache32.Fetch: growth past 2^31 - 1 blocks is excluded; a cache that is not in order is not followed further than that one call.
- DictRuns.Execute: a run ends at the call that cuts it short; `st_dict_add_no_seek` and `st_dict_traverse` are covered by their own contracts, not by runs.
- Dict.Dictionary.AddIn: a size that wraps to exactly 0 counts as a write past the pool; what a reallocation to no bytes does is the platform's.
- Dict.Dictionary.Update: the equality callback must compare signs first, as both callbacks of the library do; a callback that edits keys is not modelled.
- Dict.Dictionary.Clear: what the storage looks like after a rejection in a later bucket is said only of the clear list and the count.
- Dict.HashSimple: `st_dict_hash_sign1l16` is not written out; the results hold for any hash within the mask.
- Permutation.Permute: the callback reads the array and does not write it.
- Qsort.Sort: elements are exchanged and rotated whole, not byte by byte; the comparison callback is a total preorder.
- NBit.Set: the bit expressions on bytes are written as arithmetic, which `ByteOps` proves equal; `u` lies between 1 and 30; the product of unit and position does not wrap.
- Segments.RingUnion: ring segments start on the ring and have 1 to size points; a start plus a length stays an int.
- Segments.UnionInsert: the `st_size_*` pair (src/st_int.c:422-548) is the same code on another type.
- Heap.IndexedHeap.Insert: with an index, an object is inserted once; object pointers are integers.
- Varint.ByteStream.Write: a stream that fails to write is not modelled.
- Varint.ByteStream.ReadEach: for a signed plain char.
- Escape.NeedQuote: `isalnum` in the C locale.
- Escape.EscapeThenSplit: expansions are not modelled; in a full shell `~` at the start of a word, `[`, and `name=` before the command stay special although they are printed bare.
- Numbers.StrToNumber: where a `long long` overflows the C result is undefined; the model answers None.
- File saving and loading of dictionaries and alphabets, duplication and destruction of objects: loaded alphabets use another equality, so the results above do not carry over to them.
- `st_stack`, `st_queue`, `st_block_pool`: bounded containers that would only add easy members.
- `st_io`, `st_net`, `st_popen`, `st_log`, `st_conf`, `st_opt`, `st_mem`, `st_rand`, the weighted-integer parser: operating system, files, floating point or string copying.
- Out of memory, failing pthread calls and logging.
