# Verified model of the hash table and the hash-join builders

The repository holds an open-addressing hash table, used as map, set and low-level table, and a
hash join whose builder threads share such tables. This project models both in Dafny and proves
what they are for. `dafny verify dfyconfig.toml` checks everything.

## The table

A table has a power-of-two number of buckets and one control byte per bucket, followed by a group's
width of further bytes that replicate the first ones, so that a group can be loaded at any position.
A control byte is EMPTY, DELETED (a tombstone) or seven bits of the element's hash. Searching jumps
from group to group in triangular steps and ends at the first group that shows an EMPTY.

The class `RawTable.RawTable` keeps the real arrays and counters and changes them in place; every
method states its effect on the multiset of elements and keeps `Valid()`:

1. the geometry: both sizes are powers of two, the replicated tail mirrors the head, and the gap
   bytes of a table smaller than a group are EMPTY;
2. each full bucket carries the tag of its element's hash and is reached by the probe sequence of
   that hash with no EMPTY before it;
3. `items` counts the full buckets, and items, tombstones and `growth_left` add up to the capacity;
4. a table smaller than a group has no tombstones.

From this follow: every search ends and is complete; the byte count in `erase` is exact; the
in-place rehash, which permutes live elements while searching the array it rewrites, keeps the
multiset and ends without tombstones; and no counter underflows. `HashMap`, `HashSet` and
`HashTable` refine mathematical maps, sets and multisets. `MapRun` takes this to whole runs: any
sequence of operations gives the answers of a mathematical map, at an amortised cost of two
re-placed elements per new key, and runs to the end unless the largest table is too small for twice
the elements. `RunLaws` says what such answers have to do with each other: each is what the latest
write to its key has left.

`Arith` holds the number theory, `Capacity` the load factor and its cost argument, `Group` the
lane-by-lane view of a group and `GroupWord` the word-parallel one that refines it, `Probe` and
`Control` the geometry of probe windows over the control bytes, `TableSpec`, `SearchSpec`,
`RehashSpec` and `FillSpec` the specification on sequences, `Counting` its counters as
cardinalities, and `RawIteration`, `IterRange` and
`IterHash` the iterators. `Witnesses` builds the tables on which an expected property fails.

## The hash join

Builder threads take index ranges in a shared `overflow` vector and push each index onto the chain
of its hash; index zero ends a chain, index p + 1 stands for position p. The model takes one
critical section, one atomic map insertion or one thread-local action as a step and lets the threads
interleave in any order: a schedule names the thread that takes each step. Links are not ordered by
index, so the chains are specified by a log of pushes in the order in which they took effect; the
log and the owners of the indices are history and no step depends on them.

`ChainLog` has the chains and the lookup, `Batches` the allocation of ranges and the log,
`Handoff` the reference count, the broadcast by the last thread, and termination.
`MutexMapBuilder` proves the builder that locks for every element; `DashMapBuilder`, whose links
stay private until the end of a batch, is proved to refine it step for step once the private buffers
are laid over the shared vector. `Histogram` has the per-thread chains over numbered buffers, and
`ChainMerge` the merge of such chains over all threads.

## Findings

- The guard of the in-place rehash lowers `items` only when a drop function was supplied. If the
  hasher fails at call k, counted from zero, of a table with n elements, the table is sound
  afterwards if and only if there is a drop function or n <= k: without one the n - k elements not
  yet rehashed are gone but stay counted. `RawTable.RawTable.RehashInPlace` states this, and
  `Witnesses.InterruptedRehash` is a table where a reserve gets there.
- The bucket count is the least power of two for every capacity except one: a single element would
  fit two buckets but gets four. `Capacity.BucketsLeast` states the condition.
- `clear` on a table without elements returns at once and keeps its tombstones. So `growth_left`
  ends at the capacity if and only if there was an element, or no tombstone.
  `RawTable.RawTable.Clear` states this, and `Witnesses.ClearLeavesTombstones` is a table that is
  below its capacity after a clear.
- A comment in `hashjoin/src/builder/attempt3.rs` calls the link written during the merge wrong.
  `ChainMerge.MergePartition` proves it right for chains that share no index.

## Model

| member | source | states |
|---|---|---|
| `Arith.TriHits` | src/raw/mod.rs:67-95 | the first m triangular numbers hit every residue modulo a power of two m |
| `Arith.TriInjective` | src/raw/mod.rs:67-95 | and none of them twice |
| `Arith.MaskMod` | src/raw/mod.rs:62-95 | the wrap-around used throughout the model for `& bucket_mask` is the Euclidean remainder |
| `SearchSpec.ProbeStep` | src/raw/mod.rs:79-95 | the k-th `move_next` never passes the end of the sequence and lands on the k-th probe position |
| `Probe.ProbePosClosed` | src/raw/mod.rs:67-95 | the k-th position is the hash plus the k-th triangular number of groups, modulo the bucket count |
| `Probe.WindowIsGroup` | src/raw/mod.rs:67-95 | every probed window is a whole group of the cyclic grouping that starts at the hash, so windows of one sequence coincide or are disjoint |
| `Probe.ProbeCovers` | src/raw/mod.rs:67-95 | every bucket lies in one of the first buckets/width windows of every probe sequence |
| `Probe.ProbeOnce` | src/raw/mod.rs:67-95 | and in only one of them |
| `Probe.SameGroup` | src/raw/mod.rs:2541-2546 | two buckets pass the same-group test exactly when the step of the probe sequence that visits one visits the other |
| `Capacity.BucketsSuffice` | src/raw/mod.rs:104-140 | the bucket count is a power of two of at least four whose usable capacity is at least the one asked for, despite the floor division; none exactly when the multiplication overflows |
| `Capacity.LoadFactor` | src/raw/mod.rs:131-140 | a table of more than eight buckets may be filled to seven eighths exactly, a smaller one up to its last bucket |
| `Capacity.BucketsLeast` | src/raw/mod.rs:104-127 | no smaller power of two would do, for every capacity but one: the condition is exact, with the one-element table as the counterexample |
| `Capacity.BucketsInverse` | src/raw/mod.rs:104-140 | from four buckets on the two conversions are inverse, and one more element doubles the table |
| `Capacity.MoreBuckets` | src/raw/mod.rs:2850-2862 | resizing for more than the present capacity really enlarges the table |
| `Capacity.GrowthLeast` | src/raw/mod.rs:2850-2867 | a growing table takes the least power of two, from four on, that is larger than it and holds the elements |
| `Capacity.GrowthExact` | src/raw/mod.rs:2850-2867 | growing is possible exactly when neither multiplication by eight overflows and one of these bucket counts is within the limit |
| `Capacity.ShrinkLeast` | src/raw/mod.rs:855-905 | a shrinking table takes the least power of two, from four on, that holds the elements; none exactly on overflow |
| `Capacity.BucketsMonotone` | src/raw/mod.rs:104-127 | room for fewer elements never needs more buckets, nor overflows where room for more does not |
| `Capacity.CapacityBounds` | src/raw/mod.rs:131-140 | a table always keeps an unused bucket; doubling the buckets at least doubles the capacity |
| `Capacity.CapacityDoubles` | src/raw/mod.rs:131-140 | a table of larger capacity has at least twice the capacity |
| `Capacity.RehashPays` | src/raw/mod.rs:2830-2849 | re-placing the elements of a table at most half used is paid for by the credit saved |
| `Capacity.ResizePays` | src/raw/mod.rs:2850-2867 | and so is moving a full table to a larger one |
| `Capacity.LayoutMonotone` | src/raw/mod.rs:165-193 | if a bucket count fits the address space every smaller one does, so the allocation limit is a single number |
| `Capacity.LayoutExact` | src/raw/mod.rs:165-187 | the layout is the first aligned offset behind the buckets followed by the control bytes, and there is none exactly when this passes half the address space |
| `Group.FullTagBits` | src/control/tag.rs:36-51 | the tag of a full bucket is the top seven bits of the hash: it alone bounds the hash from both sides |
| `Group.MatchTagSound` | src/control/group/generic.rs:98-110 | a tag match misses no lane, and a false positive is a full lane differing in the lowest bit above a true match |
| `Group.LowestSetBit` | src/control/bitmask.rs:49-55 | the first set lane, none exactly when no lane is set |
| `Group.RemoveLowestBit` | src/control/bitmask.rs:34-39 | clears the lowest set lane and no other |
| `Group.LeadingZeros` | src/control/bitmask.rs:86-88 | exactly the clear lanes at the high end |
| `Control.MirrorsUpdate` | src/raw/mod.rs:2642-2672 | writing a control byte and its replica keeps the replicated tail and the EMPTY filler in step with the buckets, in tables of any size |
| `Control.CopiesMirror` | src/raw/mod.rs:2152-2187 | copying the head behind the buckets, or behind the filler of a small table, restores the replica |
| `Control.MirrorsUnique` | src/raw/mod.rs:1146-1164 | the buckets' tags determine all control bytes |
| `Control.LaneShows` | src/raw/mod.rs:2642-2672 | a group load at any position sees the cyclic window of buckets, and EMPTY filler only in tables smaller than a group |
| `Control.LaneOf` | src/raw/mod.rs:1991-2028 | every bucket of the window is seen by some lane |
| `Control.GroupSeesEmpty` | src/raw/mod.rs:1991-2028 | a load shows an EMPTY exactly when a bucket of the window, or filler, is EMPTY |
| `Control.GroupSeesSpecial` | src/raw/mod.rs:1729-1739 | the same for EMPTY or DELETED |
| `Control.TombstoneExact` | src/raw/mod.rs:3285-3331 | the byte count around an erased bucket asks for a tombstone exactly when some probe window over the bucket shows no EMPTY, and never in a table smaller than a group |
| `RawTable.RawTable.SetCtrl` | src/raw/mod.rs:2642-2672 | changes one bucket's tag, with its replica, and no other |
| `RawTable.RawTable.LoadGroup` | src/raw/mod.rs:1991-2028 | what an unaligned load shows at any probe position |
| `RawTable.RawTable.PrepareRehashInPlace` | src/raw/mod.rs:2152-2187 | full tags become DELETED, all others EMPTY, in the buckets and in the replica |
| `GroupWord.MatchTagRefines` | src/control/group/generic.rs:107-112 | the subtract-and-mask comparison of a 64-bit word marks exactly the lanes of the tag match, borrow included |
| `GroupWord.MatchSpecialRefines` | src/control/group/generic.rs:117-137 | the word matches for EMPTY, for EMPTY or DELETED and for full tags are exact |
| `GroupWord.ConvertRefines` | src/control/group/generic.rs:143-154 | the carry-free word conversion converts every tag on its own |
| `GroupWord.TrailingZerosRefines` | src/control/bitmask.rs:49-70 | trailing zero bits divided by the stride are the clear low lanes, and give the lowest set lane |
| `GroupWord.LeadingZerosRefines` | src/control/bitmask.rs:86-88 | the same at the high end |
| `GroupWord.RemoveLowestRefines` | src/control/bitmask.rs:34-39 | `x & (x - 1)` clears exactly the lowest set lane |
| `GroupWord.BitMaskIter.Next` | src/control/bitmask.rs:108-116 | yields the set lanes in ascending order, each once |
| `TableSpec.ReachUpdate` | src/raw/mod.rs:1991-2028 | which tag changes keep a bucket reachable by its probe sequence |
| `TableSpec.DenseReach` | src/raw/mod.rs:1891-1903 | a slot with no free bucket before it has no EMPTY before it |
| `TableSpec.PlaceNew` | src/raw/mod.rs:1209-1216 | filling a reachable free bucket keeps every element reachable |
| `TableSpec.EraseKeeps` | src/raw/mod.rs:3285-3342 | erasing with the chosen tag keeps every other element reachable |
| `TableSpec.SearchComplete` | src/raw/mod.rs:1991-2028 | a search that reaches an EMPTY has seen every element with the hash |
| `TableSpec.SearchStops` | src/raw/mod.rs:1991-2028 | with one EMPTY anywhere a search meets an EMPTY before the sequence is over |
| `TableSpec.SlotSearchStops` | src/raw/mod.rs:1934-1966 | the search for a free bucket meets one before the sequence is over |
| `TableSpec.InvHasEmpty` | src/raw/mod.rs:131-140 | every table at rest has an EMPTY bucket |
| `TableSpec.InvEmpties` | src/raw/mod.rs:2527-2531 | the number of EMPTY buckets exceeds `growth_left` by the reserve of the load factor; `items` is the number of elements |
| `Counting.CountsTag` | src/raw/mod.rs:2527-2531 | the number of EMPTY or DELETED buckets is the cardinality of the set of their indices |
| `Counting.CountsFull` | src/raw/mod.rs:2527-2531 | and so for full buckets |
| `Counting.CountsElement` | src/raw/mod.rs:3884-3900 | an element is in the contents as often as there are full buckets that hold it, or waiting ones during a rehash |
| `TableSpec.InsertInv` | src/raw/mod.rs:1209-1216 | an insertion keeps items + tombstones + growth_left at the capacity, and the whole invariant |
| `TableSpec.EraseInv` | src/raw/mod.rs:3285-3342 | and so does an erase, whichever tag it chooses |
| `RawTable.RawTable.ScanGroup` | src/raw/mod.rs:1997-2010 | looks at the candidates of one window and finds a match exactly when there is one |
| `RawTable.RawTable.FindInner` | src/raw/mod.rs:1991-2028 | returns a matching bucket, or none exactly when no stored element matches |
| `SearchSpec.SlotFixed` | src/raw/mod.rs:1692-1725 | a filler hit in a small table is turned into the first free bucket of all, which the group at zero shows |
| `SearchSpec.FirstFreeUnique` | src/raw/mod.rs:1934-1966 | the bucket that the first free lane of the first window with room stands for, corrected for filler, is one only |
| `SearchSpec.FirstFreeExists` | src/raw/mod.rs:1934-1966 | and exists whenever some bucket is free |
| `SearchSpec.FirstFreeDecides` | src/raw/mod.rs:1051-1064 | so its tag decides whether an insertion can use a tombstone |
| `RawTable.RawTable.FixInsertSlot` | src/raw/mod.rs:1692-1725 | the result is the first free bucket of the search, whatever filler the small table shows |
| `RawTable.RawTable.FindInsertSlot` | src/raw/mod.rs:1934-1966 | returns the first free bucket of the probe sequence, that of the first free lane of the first window with room, without underflow or endless loop |
| `SearchSpec.RememberedSlot` | src/raw/mod.rs:1777-1836 | a tombstone remembered early in the search is still reachable when the search ends later |
| `RawTable.RawTable.FindOrFindInsertSlotInner` | src/raw/mod.rs:1777-1836 | either a match, or no element matches and the slot is the first free bucket of the search, though the search went on behind it |
| `RawTable.RawTable.FindOrFindInsertSlot` | src/raw/mod.rs:1173-1203 | the same after making room for one element; overflow exactly when no room can be made, and then not a byte has changed |
| `RawTable.RawTable.Find` | src/raw/mod.rs:1228-1248 | a match exactly when a stored element matches |
| `RawTable.RawTable.InsertInSlot` | src/raw/mod.rs:1209-1216 | adds the element, keeps the invariant, uses up growth only if the slot was EMPTY |
| `RawTable.RawTable.Insert` | src/raw/mod.rs:1044-1070 | with growth left, or if the first free bucket on the hash's path is a tombstone, that bucket is filled and nothing else changes; otherwise room is made: in place if the elements fill at most half the capacity, and else in the least larger table that holds them. Done exactly when one of this is possible, otherwise nothing has changed; two re-placed elements amortised |
| `RawTable.RawTable.SlotForInsert` | src/raw/mod.rs:1051-1064 | room is made only if the first free bucket found is EMPTY and no growth is left |
| `RawTable.RawTable.ErasureTag` | src/raw/mod.rs:3285-3331 | reads the two groups around the bucket; EMPTY is chosen exactly when no probe path can have passed over it |
| `RawTable.RawTable.Erase` | src/raw/mod.rs:3285-3342 | removes exactly this element and keeps the invariant |
| `RawTable.RawTable.Remove` | src/raw/mod.rs:808-816 | returns the element and a slot that can be filled again with the same hash |
| `RawTable.RawTable.RemoveEntry` | src/raw/mod.rs:820-827 | removes a matching element and leaves the exact tag and counters; none exactly when nothing matches, and then nothing has changed |
| `RawTable.RawTable.ReplaceBucketWith` | src/raw/mod.rs:1146-1164 | if a value is put back, control bytes and counters are exactly as before, whether the erase chose EMPTY or DELETED; otherwise the element is gone |
| `RawTable.RawTable.Clear` | src/raw/mod.rs:830-850 | empties the table; `growth_left` ends at the capacity if and only if there was an element to remove or no tombstone to keep |
| `Witnesses.ClearLeavesTombstones` | src/raw/mod.rs:836-850 | a table that had eight elements of one hash inserted and removed, and is below its capacity after being cleared |
| `RehashSpec.PrepareStarts` | src/raw/mod.rs:2152-2187 | after the preparation every element is waiting and none is lost |
| `RehashSpec.RehashStay` | src/raw/mod.rs:3098-3109 | an element whose new slot is in the same group may stay |
| `RehashSpec.RehashMove` | src/raw/mod.rs:3111-3122 | moving an element to an EMPTY slot keeps contents and reachability |
| `RehashSpec.RehashSwap` | src/raw/mod.rs:3123-3130 | swapping two waiting elements settles one of them and keeps the multiset |
| `RehashSpec.RehashDone` | src/raw/mod.rs:3134-3137 | when nothing waits the invariant holds with no tombstone left |
| `RehashSpec.GuardIncomplete` | src/raw/mod.rs:3068-3079 | without a drop function the guard restores the invariant exactly when nothing was waiting: the waiting elements stay counted in `items` |
| `RawTable.RawTable.RehashStep` | src/raw/mod.rs:3091-3131 | one element stays if its first free bucket is in the same group, moves there if that is EMPTY, and else changes places with the element waiting there; each swap uses up one waiting bucket |
| `RawTable.RawTable.RehashBucket` | src/raw/mod.rs:3084-3132 | one hasher call for each element settled; the swap loop ends with the bucket settled, or stops at exactly the failing call |
| `RawTable.RawTable.RehashAll` | src/raw/mod.rs:3084-3132 | the hasher is called once for each element: all are settled if and only if the failing call is not among the first `items`, and otherwise as many as calls succeeded |
| `RawTable.RawTable.RehashGuard` | src/raw/mod.rs:3068-3079 | with a drop function the invariant is restored and exactly the waiting elements are lost |
| `RawTable.RawTable.RehashInPlace` | src/raw/mod.rs:3056-3137 | keeps the multiset, leaves no tombstone and `growth_left` at capacity minus items; with a hasher that fails at call k it loses exactly items - k elements, and the table is sound if and only if there was a drop function, no failure, or no more than k elements |
| `Witnesses.InterruptedRehash` | src/raw/mod.rs:2830-2849 | a table with eight tombstones and one element, for which reserving six places takes the in-place rehash: without a drop function and with a first call that fails the element is gone and still counted |
| `FillSpec.FillingStep` | src/raw/mod.rs:2977-3013 | placing the next element of the old table in the new one keeps both halves together equal to the old contents |
| `RawTable.RawTable.FillFrom` | src/raw/mod.rs:2959-3018 | the new table holds the multiset of the old, all findable, and each element was moved once |
| `RawTable.RawTable.ResizeInner` | src/raw/mod.rs:2959-3029 | the same contents in a table of exactly the size asked for, or nothing changed when it cannot be allocated |
| `RawTable.RawTable.ReserveRehash` | src/raw/mod.rs:2817-2868 | rehashes in place up to half the capacity and else takes the least larger table that holds the elements; changes nothing if that is not possible; never costs more than the credit saved for one element |
| `RawTable.RawTable.Grow` | src/raw/mod.rs:2850-2867 | the least power of two, from four on, that is larger than the table and holds the elements, with the same contents |
| `RawTable.RawTable.Reserve` | src/raw/mod.rs:919-934 | afterwards `growth_left` covers the request, in the least larger table if it grew; or the overflow is reported and nothing changed |
| `RawTable.RawTable.ReservableExact` | src/raw/mod.rs:2817-2867 | a reserve is possible exactly when the elements fit in half the capacity, or no multiplication overflows and a larger table that holds them is within the limit |
| `RawTable.RawTable.ShrinkTo` | src/raw/mod.rs:853-905 | with nothing to hold the one-bucket table; otherwise the least power of two, from four on, that holds max(items, minimum) if that is smaller, and nothing changed if not; the contents stay |
| `RawTable.RawTable.CloneFromImpl` | src/raw/mod.rs:3482-3516 | fails if and only if the failing clone is among the elements; a finished clone has the same control bytes, counters and contents, a failing one drops exactly the elements cloned so far |
| `RawTable.RawTable.DropCloned` | src/raw/mod.rs:3492-3501 | the guard drops the full buckets below the current one and nothing else |
| `RawIteration.GroupFollows` | src/raw/mod.rs:3687-3708 | while elements remain the unchecked iterator has a next group inside the table |
| `RawIteration.IterErased` | src/raw/mod.rs:3884-3900 | erasing a bucket already yielded does not disturb the iteration |
| `RawIteration.RawIter.Next` | src/raw/mod.rs:3884-3900 | yields every full bucket once in ascending order and stops when the count is used up |
| `RawIteration.FullBetweenExact` | src/raw/mod.rs:3687-3708 | what an iterator has to yield: exactly the full buckets of its range |
| `RawIteration.FullBetweenAscending` | src/raw/mod.rs:3687-3708 | in ascending order, so each once |
| `RawIteration.FoldLeftAppend` | src/raw/mod.rs:3745-3752 | a fold applies the function once to each element and the accumulator so far, from left to right |
| `RawIteration.FoldCollects` | src/raw/mod.rs:3745-3752 | so that collecting with a fold gives back the list that was folded |
| `RawIteration.RawIter.Fold` | src/raw/mod.rs:3737-3789 | the group-wise fold is the left fold of the function over the ascending list of the full buckets still to come |
| `RawIteration.RawIter.FoldByNext` | src/raw/mod.rs:3687-3708 | repeated `next` gives the same left fold |
| `IterRange.RawIterRange.Next` | src/raw/mod.rs:3687-3708 | yields the first bucket of what remains, and nothing only when nothing remains; no group is loaded outside the range |
| `IterRange.SplitPoint` | src/raw/mod.rs:3655-3672 | half of what follows the current group, rounded down to whole groups, is a group boundary inside the range |
| `IterRange.RawIterRange.Split` | src/raw/mod.rs:3645-3681 | head and tail are disjoint ranges and together yield, in order, what the whole range had left; the tail starts at half of what follows the current group, rounded down to a group, and there is none exactly when the current group is the last |
| `IterHash.TakeLane` | src/raw/mod.rs:4307-4333 | a lane taken off the mask shows a bucket not yielded before |
| `IterHash.AllYielded` | src/raw/mod.rs:4307-4333 | when a window shows an EMPTY every element with the hash has been yielded |
| `IterHash.RawIterHash.Next` | src/raw/mod.rs:4307-4333 | only buckets whose tag matches the hash's, up to the lowest bit in the portable group; no bucket twice, and none with the hash left out at the end |
| `MapSpec.RepresentsRemove` | src/map.rs:1993-1999 | removing the entry from the contents is removing the key from the map |
| `MapSpec.SubmapEqual` | src/map.rs:2019-2026 | a map of the same size that has every entry of the first is equal to it |
| `MapSpec.ExtendedLast` | src/map.rs:4480-4495 | after inserting entries in order a key has the value of its last entry, and a key without entries the value it had |
| `HashMap.HashMap.Len` | src/map.rs:828-830 | the size of the map |
| `HashMap.HashMap.Get` | src/map.rs:1347-1357 | the value of the key in the map, none exactly for a missing key |
| `HashMap.HashMap.Insert` | src/map.rs:1790-1801 | updates the map and returns the old value; a panic leaves the map as it was |
| `HashMap.HashMap.RemoveEntry` | src/map.rs:1993-1999 | removes the key and returns its entry |
| `HashMap.HashMap.Entry` | src/map.rs:1229-1244 | occupied exactly when the key is in the map |
| `HashMap.HashMap.VacantInsert` | src/map.rs:4069-4081 | adds the key to the map; fails exactly when no growth is left, the first free bucket is no tombstone and no room can be made |
| `HashMap.HashMap.ReplaceEntryWith` | src/map.rs:3985-4013 | updates the entry, which stays occupied with control bytes and counters untouched, or removes it and hands back a vacant entry with its key, as the function says |
| `HashMap.HashMap.Retain` | src/map.rs:917-930 | exactly the entries the function keeps, with the values it left |
| `HashMap.HashMap.Visit` | src/raw/mod.rs:4342-4354 | one step of a filtering iteration: splits the entry by the verdict, erasing behind the iterator |
| `HashMap.HashMap.ExtractIf` | src/map.rs:976-987 | however early the caller stops, extracted and remaining entries split the map, nothing is returned twice and nothing the function keeps is removed; run to the end the split is exactly by the function |
| `HashMap.HashMap.Clear` | src/map.rs:1009-1011 | the empty map |
| `HashMap.HashMap.Reserve` | src/map.rs:1103-1106 | the same map with room for the request, in the least larger table if it grew |
| `HashMap.HashMap.ShrinkTo` | src/map.rs:1204-1207 | the same map in the least table that holds it and the minimum, if that is smaller |
| `HashMap.HashMap.Eq` | src/map.rs:2019-2026 | equality of the maps, despite the length shortcut and the one-sided loop |
| `HashMap.HashMap.Extend` | src/map.rs:4480-4495 | the map after inserting the entries in order, with room reserved for as many as promised or, if it had entries, for half of them; it stops only where no room can be made |
| `MapRun.Perform` | src/map.rs:1790-1801 | the answer and the new map for each kind of operation, entry by entry; it overflows only if there is no room and none can be made |
| `MapRun.Run` | src/map.rs:1790-1801 | for every sequence of operations all answers and the final map are those of a mathematical map, across all resizes and rehashes; without explicit reserve or shrink at most two elements are re-placed per new key; a run for whose elements and requests, taken twice, a table can be allocated runs to the end |
| `MapRun.NotStarved` | src/raw/mod.rs:2817-2868 | an operation never fails if a table for twice the elements it may end up with can be allocated |
| `MapRun.KeysBound` | src/map.rs:1790-1801 | a run never holds more keys than it started with and inserted |
| `MapRun.RunNew` | src/raw/mod.rs:2817-2868 | the same from a new table, with the total of re-placed elements at most twice the number of new keys; the run finishes, with all its answers, if a table can be allocated for twice the new keys and two more, or for twice the number of operations and whatever is reserved |
| `RunLaws.LatestWrite` | src/map.rs:1790-1801 | in every run the answer about a key is what its latest write has left: the value inserted, nothing after a removal or a clear, the value found or given through an entry, what a replacement has left, or what a filter has made of it |
| `RunLaws.NeverWritten` | src/map.rs:1347-1357 | before the first write to a key answers come from the map at the start |
| `RunLaws.QuietKeeps` | src/map.rs:1790-1801 | the entry of a key changes only by operations on this key or on the whole map |
| `RunLaws.RunPrefix` | src/map.rs:1790-1801 | a longer run begins with the answers of a shorter one |
| `RunLaws.AskAtEnd` | src/map.rs:1347-1357 | the final map holds for each key what one more question would be answered with, and asking changes nothing |
| `RunLaws.RemovedAtEnd` | src/map.rs:1993-1999 | a removed key is gone and all other entries stay |
| `RunLaws.LenCounts` | src/map.rs:828-830 | the length is the number of keys in the map |
| `RunLaws.NewKeysCounted` | src/map.rs:1790-1801 | the new keys in the cost bound are the positions of the run that insert a key the map does not hold |
| `HashTable.HashTable.GetEntry` | src/table.rs:373-391 | an occupied entry with a match, or a vacant one that can be filled, when nothing matches |
| `HashTable.HashTable.RemoveOccupied` | src/table.rs:1642-1652 | the vacant entry left behind can be filled without search, growth or underflow; the tag left is the exact one |
| `HashTable.HashTable.FillVacant` | src/table.rs:1886-1897 | adds the element in the slot |
| `HashTable.HashTable.Refill` | src/table.rs:1642-1897 | removing and refilling restores control bytes and counters whichever tag the removal left |
| `HashTable.HashTable.Retain` | src/table.rs:885-894 | what is left are the accepted elements as the closure left them, bucket by bucket, for every closure that keeps the hash of the stored elements it accepts |
| `Counting.CountsRetained` | src/table.rs:885-894 | afterwards an element occurs as often as accepted elements have been turned into it |
| `HashTable.RetainedFilters` | src/table.rs:885-894 | for a closure that changes nothing these are exactly the accepted elements, with their multiplicities |
| `HashTable.FilteringStep` | src/raw/mod.rs:3884-3900 | judging behind the iterator keeps what is stored, plus the elements seen, equal to the original contents plus what they became |
| `HashSet.HashSet.Contains` | src/set.rs:862-870 | membership |
| `HashSet.HashSet.Difference` | src/set.rs:745-750 | lists the set difference, each element once |
| `HashSet.HashSet.SymmetricDifference` | src/set.rs:774-778 | lists the symmetric difference, each element once |
| `HashSet.HashSet.Intersection` | src/set.rs:799-809 | lists the intersection, whichever set is walked |
| `HashSet.HashSet.Union` | src/set.rs:830-841 | lists the union once, whichever set comes first |
| `HashSet.HashSet.IsDisjoint` | src/set.rs:1024-1026 | whether the sets share no element |
| `HashSet.HashSet.IsSubset` | src/set.rs:1045-1047 | the subset relation, despite the length shortcut |
| `HashSet.HashSet.Eq` | src/set.rs:1229-1235 | equality of the sets, despite the length shortcut |
| `HashSet.HashSet.Insert` | src/set.rs:1092-1094 | adds the element and tells whether it was new |
| `HashSet.HashSet.Retain` | src/set.rs:368-373 | keeps exactly the accepted elements |
| `HashSet.HashSet.Toggle` | src/set.rs:1586-1600 | removes a present and inserts an absent element with one search |
| `HashSet.HashSet.BitOrAssign` | src/set.rs:1520-1526 | the union with a part of the other set, which is all of it if and only if there was room |
| `HashSet.HashSet.BitAndAssign` | src/set.rs:1555-1557 | the intersection, in place |
| `HashSet.HashSet.BitXorAssign` | src/set.rs:1586-1600 | the symmetric difference with a part of the other set, which is all of it if and only if there was room |
| `HashSet.HashSet.SubAssign` | src/set.rs:1629-1637 | the difference, whichever of the two strategies is taken |
| `ChainLog.ListedExactly` | hashjoin/src/mutex_map_builder.rs:85-99 | the chain of a hash lists exactly the indices pushed for it |
| `ChainLog.ListedOnce` | hashjoin/src/mutex_map_builder.rs:85-99 | each once, later pushes first |
| `ChainLog.ChainIsListing` | hashjoin/src/mutex_map_builder.rs:44-57 | following the links from the head of a hash visits that list and ends: chains are finite and acyclic although links are not ordered by index |
| `ChainLog.ChainUnique` | hashjoin/src/mutex_map_builder.rs:85-99 | the walk from a head is determined |
| `ChainLog.PushKeeps` | hashjoin/src/mutex_map_builder.rs:44-57 | a push moves the head of its own hash only and keeps all chains right |
| `ChainLog.Lookup.Get` | hashjoin/src/mutex_map_builder.rs:85-99 | the loop ends and returns the positions of the chain, one less than the indices |
| `ChainLog.PublishedAnswers` | hashjoin/src/mutex_map_builder.rs:85-99 | a published structure can be walked for every hash, and the answer is the list of all pushes of that hash and no other answer is possible |
| `Batches.AllocateKeeps` | hashjoin/src/mutex_map_builder.rs:35-42 | allocating at the end of the overflow vector keeps ranges disjoint and every index owned by one element |
| `Batches.NextIsFresh` | hashjoin/src/mutex_map_builder.rs:44-48 | the index a thread is about to push belongs to that very element and nobody pushed it |
| `Batches.PushNextKeeps` | hashjoin/src/mutex_map_builder.rs:44-57 | a push keeps log and progress in agreement |
| `Batches.RangesDisjoint` | hashjoin/src/dash_map_builder.rs:40-49 | two running batches never share an index |
| `Batches.ListedIsPushed` | hashjoin/src/mutex_map_builder.rs:44-57 | at any time the chain of a hash holds the pushed elements of that hash and nothing else |
| `Batches.DoneAnswers` | hashjoin/src/mutex_map_builder.rs:85-99 | after the last push the answer for a hash is exactly the positions of the input elements with that hash, each once; the positions number the whole input |
| `Handoff.ReleaseReference` | hashjoin/src/mutex_map_builder.rs:60-76 | dropping a reference on the builder's own fields is the specified release |
| `Handoff.ReleaseKeeps` | hashjoin/src/mutex_map_builder.rs:62-76 | the broadcast is never used twice, and a release publishes exactly when nobody else is still building |
| `Handoff.NoDeadlock` | hashjoin/src/mutex_map_builder.rs:62-80 | no thread can move exactly when all have returned |
| `MutexMapBuilder.StepKeeps` | hashjoin/src/mutex_map_builder.rs:29-81 | every step of every thread keeps the invariant; no index is out of bounds |
| `MutexMapBuilder.ChainsAtEveryMoment` | hashjoin/src/mutex_map_builder.rs:33-58 | in every state of every interleaving each chain is exactly the inserted indices of its hash, without repetition |
| `MutexMapBuilder.EveryLookupIsRight` | hashjoin/src/mutex_map_builder.rs:29-99 | under every interleaving every returned lookup is the published one and answers each hash with the positions of all its elements, each once |
| `MutexMapBuilder.StepWorks` | hashjoin/src/mutex_map_builder.rs:29-81 | every step of a thread that is not blocked reduces the work left |
| `MutexMapBuilder.RunsEnd` | hashjoin/src/mutex_map_builder.rs:29-81 | no deadlock and no endless run: runs are bounded, and stop only when all threads have returned |
| `MutexMapBuilder.MutexMapBuilder.Advance` | hashjoin/src/mutex_map_builder.rs:33-80 | the imperative step is the specified one |
| `MutexMapBuilder.MutexMapBuilder.Run` | hashjoin/src/mutex_map_builder.rs:29-81 | running any schedule gives the specified state |
| `DashMapBuilder.AllocateRefines` | hashjoin/src/dash_map_builder.rs:36-47 | the extended vector under the overlay is the locking builder's vector |
| `DashMapBuilder.InsertRefines` | hashjoin/src/dash_map_builder.rs:49-55 | an atomic map insertion with a private link is the locking builder's insertion under the overlay |
| `DashMapBuilder.CopyBackRefines` | hashjoin/src/dash_map_builder.rs:57-62 | copying a private buffer back changes no link of the overlay |
| `DashMapBuilder.StepRefines` | hashjoin/src/dash_map_builder.rs:29-84 | every step is the corresponding step of the locking builder |
| `DashMapBuilder.RunRefines` | hashjoin/src/dash_map_builder.rs:29-84 | under every interleaving the two builders publish the same lookups |
| `DashMapBuilder.OverlaidChains` | hashjoin/src/dash_map_builder.rs:34-62 | at every moment shared vector and private buffers together form valid chains |
| `DashMapBuilder.EveryLookupIsRight` | hashjoin/src/dash_map_builder.rs:66-104 | once all buffers are copied the shared vector alone answers every hash with the positions of all its elements, each once |
| `DashMapBuilder.DashMapBuilder.Run` | hashjoin/src/dash_map_builder.rs:29-84 | running any schedule gives the specified state |
| `Histogram.RangesFollow` | hashjoin/src/builder/global_index_tracker.rs:21-27 | ranges of different allocations do not meet |
| `Histogram.GlobalIndexTracker.Allocate` | hashjoin/src/builder/global_index_tracker.rs:21-27 | each range starts where all earlier ones end, under the next number |
| `Histogram.AccumulateShows` | hashjoin/src/builder/histogram_local_accumulate.rs:61-81 | one more item keeps newest index, oldest link place and all links right for every hash |
| `Histogram.AccumulateInput` | hashjoin/src/builder/histogram_local_accumulate.rs:50-88 | one input: the buffer holds the links of its range and older links stay |
| `Histogram.AccumulateHistograms` | hashjoin/src/builder/histogram_local_accumulate.rs:90-110 | all inputs of a thread, whatever other threads allocate in between; no result exactly when the bucket count is no power of two |
| `Histogram.ChainFalls` | hashjoin/src/builder/histogram_local_accumulate.rs:56-81 | the chain of a hash visits exactly the thread's positions of it, in strictly falling global index |
| `ChainMerge.JoinChains` | hashjoin/src/builder/attempt3.rs:465-468 | linking the end of one chain to the head of another gives the first followed by the second |
| `ChainMerge.MergeStep` | hashjoin/src/builder/attempt3.rs:459-477 | one more entry puts its thread's chain before what was merged for its hash and touches no other chain |
| `ChainMerge.MergePartition` | hashjoin/src/builder/attempt3.rs:449-480 | for every hash the merged chain is the concatenation of all threads' chains for it, the last thread's first; no link outside these chains is written |
| `ChainMerge.MergeAll` | hashjoin/src/builder/attempt3.rs:440-482 | partitions that share no index are all merged right in the one shared vector |
| `ChainMerge.JoinedHoldsAll` | hashjoin/src/builder/attempt3.rs:449-480 | it holds exactly the indices of those chains |
| `ChainMerge.JoinedOnce` | hashjoin/src/builder/attempt3.rs:449-480 | each once |
| `ChainMerge.JoinedSegment` | hashjoin/src/builder/attempt3.rs:459-477 | each thread's chain in one piece and in its order, followed by what was merged earlier |
| `Histogram.ChainEndsAtEnd` | hashjoin/src/builder/histogram_local_accumulate.rs:61-81 | it starts at the entry's value and stops at the link that `end_of_chain` names, which is zero; no entry exactly for an absent hash |

## Left out

- Failing allocators: the model has one limit on the bucket count, beyond which an allocation reports a capacity overflow; `Capacity.LayoutMonotone` is why one number is enough. Errors of the allocator itself, and `AllocError`, are not modelled.
- Pointers, zero-sized elements, byte layout and deallocation: buckets are indices of an array.
- Targets other than 64-bit little-endian ones: hashes and `usize` have 64 bits and the portable group has eight bytes.
- The vector instructions of the SSE2 and NEON groups: their matches are the exact lane-by-lane ones of `Group`; only the portable word is modelled bit by bit.
- The static table without allocation: modelled with one bucket and one control byte more than it has; all its bytes are EMPTY and nothing is ever stored in it.
- Hashers and comparisons with state, and keys whose hash or equality changes: the hasher is a fixed function and equal keys have equal hashes, as the documentation demands.
- Hasher failures outside the in-place rehash: during a resize the new table is separate and the old one unchanged, which adds nothing.
- Panics of drop functions, and of the closures given to `retain` and the like.
- The counter-free insertions `with_fixed_items`, `insert_directly` and `insert_in_slot_without_updating_count`, and the instrumented copies of the search, which step around the invariant on purpose.
- HashSet.HashSet.Union: lists the elements instead of yielding them one by one, as do the other set expressions; the lazy adapters are not modelled.
- HashSet.HashSet.BitAndAssign: lists the other set first and looks elements up in that list, as does `HashSet.HashSet.SubAssign` when it filters, where the source asks the other set each time; the other assigning operators walk such a list.
- HashTable.HashTable.Retain: the closure is a function from an element to a verdict and a new element; a closure that also changes state of its own is not modelled, here and for the map.
- `get_many_mut`, `drain`, `into_iter`, raw entries, `try_insert`, `get_or_insert_with` and the rest of the entry interface: compositions of the operations proved here.
- Serialisation, `Debug`, the threads of parallel iteration and other glue.
- The hash join's map is a mathematical map whose single operations are atomic, for the table under the lock and for the concurrent map alike; that the table implements such a map is what the first half proves. The concurrent map's own locking is not part of this model.
- The asynchronous runtime, broadcast channels and reference counting: kept are the count, that the last release publishes, and that the others receive what was published.
- MutexMapBuilder.MutexMapBuilder.Run: every thread of the build calls `run` once; a thread that never starts keeps its reference and nobody finishes, which corresponds to a schedule that leaves it out.
- The leapfrog builder, which follows the protocol of `DashMapBuilder` over another library.
- ChainMerge.MergePartition: matches entries by their hash, where the source uses a rearrangement of the hash's bits; the counting of hashes per partition is left out.
- The last stage of the builder in `attempt3.rs`, in which the threads write a shared table without locks through `insert_directly` and a simulated occupancy, and the later experimental tables of the hash join.
