# Verified model of liballocator

liballocator is a two-layer heap for embedded targets. The page allocator manages all pages of up to eight
memory regions through one array of page descriptors: a free or used *group* of pages carries its size as a
boundary tag on its first and last descriptor, and the free groups sit in 20 size-class lists. The zone
allocator above it carves single pages (*zones*) into chunks of 16 bytes to half a page. It hosts its own
metadata: the descriptor of a zone is a chunk of a descriptor zone, which needs a descriptor itself, down to
the one static initial zone.

The model has two layers of its own, and a statement of the service between them.

* An abstract layer of values: `PagePartition` (which groups of pages are free and used) and
  `HeapModel`/`HeapSteps` (zones, the zone that hosts each chunk in use, and what the user holds). The hard
  theorems are proved here: the cascade of `deallocateChunk`, roll-back, no leak, conservation of bytes, and
  (in `HeapSafety`, `HeapRuns`) safety over all runs.
* `Requests` states what a request is owed in free chunks and free pages only: which chunk size it gets, when it
  is served from what is there, when zones are added, and when it fails. `ZoneAllocator.Allocate` keeps it.
* An imperative layer in the shape of the source: the classes `ListNodes`, `PageAllocator`, `Zone`,
  `ZoneAllocator` and `Allocator` with the same fields, loops and branches. Their methods are proved to
  take exactly the steps of the abstract layer, and `Valid()` ties descriptors, tags, used bits, linked
  lists, bucket counters and zone objects to the abstract state.

The class `Allocator` keeps the run of calls made so far, so the theorems about runs are statements about
the objects themselves (`Allocator.BytesOwnedOnce`, `Allocator.NothingLeaks`). `AllocatorUsage.InitSingleRegion`
starts one on concrete memory, so all preconditions and invariants can be met at once.

Central ideas of the proofs:

* A tiled partition in which no two neighbouring free groups of one region are left apart is a function of
  its used groups (`PagePartition.Canonical`). Round trip, roll-back and no leak on the page level follow
  from it.
* Every zone but the initial one is described by a chunk of a zone of smaller depth, and has a chunk in use.
  Following the depth upwards from any zone ends at a zone with a chunk of the user, so without user chunks
  only the initial zone is left (`HeapSteps.NoLeak`).
* One descriptor chunk is free between any two calls, which is why `allocateZone` recurses at most once.

## What the proofs found out about the code

Each entry has the exact condition and an input for which the code goes wrong.

* `chooseDescRegion` never tests region 0, from which it starts: the chosen region can hold the descriptor
  array exactly when region 0 can (`Regions.ChooseDescRegion`). For the regions 4096..4352 and 8192..13312 and
  pages of 128 bytes it selects region 0, which is too small, although region 1 fits
  (`Regions.ChooseDescRegionMisses`).
* The upper bound in `getRegion` is inclusive. For disjoint regions `getRegion` and `getPage` are right for all
  pages exactly when no region ends where a region listed later begins (`Regions.LookupCompleteIff`,
  `Regions.GetPageCompleteIff`). For the regions 4096..5120 and 5120..6144, in this order, the first page of the
  second region is looked up in the first one and `getPage` returns nullptr (`Regions.AdjacentRegionsMissed`).
* `init` accepts page sizes above 4096, but the table of eight buckets has an entry for every chunk size
  exactly up to 4096 (`ZoneBuckets.BucketsSuffice`). For pages of 8192 bytes the chunk size 4096 has index 8
  (`ZoneBuckets.NoBucketAt8192`).
* The statistics are summed up in 32 bits because the accumulators start from `0U`. They are all right
  exactly when the regions together are below 4 GiB (`Statistics.StatsExact`). With one region of 4 GiB the
  reported total is 0 (`AllocatorUsage.StatsOverflow`).

## Model

| member | source | states |
|---|---|---|
| Bits.IsPowerOf2Correct | lib/utils.hpp:44-47 | `value & (value - 1)` is zero for a positive value exactly when it is a power of two |
| Bits.CeilPow2Least | lib/utils.hpp:49-52 | the specification of rounding up: the least power of two that is at least the value |
| Bits.RoundPowerOf2 | lib/utils.hpp:52-65 | the bit smearing computes that least power of two for every value from 1 to 2^32 |
| Bits.MaskRoundsDown | lib/RegionInfo.cpp:87 | masking with the complement of a power of two minus one rounds down to a multiple of it |
| ListNode.ListNodes.AddToList | lib/ListNode.hpp:64-76 | pushes the node onto a well-formed doubly linked list and touches no node of another list |
| ListNode.ListNodes.RemoveFromList | lib/ListNode.hpp:80-96 | removes exactly that node, wherever it stands, keeps the order of the others and leaves the node unlinked |
| Regions.TrimmingIsTight | lib/RegionInfo.cpp:56-104 | for a region of at least one page both asserts hold, the trimmed part is the largest page-aligned subrange, and fewer than two pages are lost |
| Regions.InitRegionInfo | lib/RegionInfo.cpp:56-81 | succeeds exactly if some aligned page fits, and then describes the largest aligned part |
| Regions.ChooseDescRegion | lib/PageAllocator.cpp:244-258 | the chosen region fits exactly if region 0 fits, and is then the first of the smallest regions that fit |
| Regions.ChooseDescRegionMisses | lib/PageAllocator.cpp:244-258 | for two regions that init does not reject the selection is region 0, which does not fit, although region 1 does |
| Regions.LookupPage | lib/PageAllocator.cpp:283-295 | for disjoint regions, none of which ends where a later one starts, getRegion finds the region of every page |
| Regions.LookupCompleteIff | lib/PageAllocator.cpp:283-295 | for disjoint regions getRegion is right for all pages exactly if no region ends where a later one starts |
| Regions.GetPageCompleteIff | lib/PageAllocator.cpp:194-211 | for disjoint regions getPage finds all pages exactly under the same condition, and otherwise misses the first page of the later region |
| Regions.AdjacentRegionsMissed | lib/PageAllocator.cpp:194-211 | two adjacent regions for which a page is looked up in the wrong region and not found |
| Regions.GeometryHolds | lib/PageAllocator.cpp:75-103 | the pages that init describes are aligned, non-null, pairwise disjoint, and contiguous inside a region |
| Regions.SingleTable | lib/allocator.cpp:68-75 | a single range always meets init's demands on the region table, and has two pages exactly if two aligned pages fit |
| Groups.GroupIdxMonotone | lib/group.cpp:42-48 | a larger group has no smaller size class |
| Groups.GroupIdxClass | lib/group.cpp:42-48 | the size class without its formula: 0 for fewer than 4 pages, and i > 0 exactly for 2^(i+1) up to 2^(i+2) - 1 pages |
| Groups.GroupIdxInTable | lib/group.cpp:42-48 | the size class is inside the 20 lists exactly for sizes below 2^21, the limit of the tag |
| Groups.SplitGroup | lib/group.cpp:70-90 | one tagged group becomes two tagged groups (or stays one), and nothing but their tags changes |
| Groups.JoinGroup | lib/group.cpp:92-104 | two tagged neighbours become one tagged group, and nothing but their tags changes |
| PagePartition.AllocateAtKeeps | lib/PageAllocator.cpp:121-146 | allocating from a free group keeps the tiling of all regions and the absence of free neighbours; exactly one used group is added |
| PagePartition.AbsorbKeeps | lib/PageAllocator.cpp:155-189 | one turn of a coalescing loop keeps the tiling and the coalescing of the rest, and the joined group spans both |
| PagePartition.Canonical | lib/PageAllocator.cpp:148-192 | two fully coalesced tilings with the same used groups are equal, whatever allocations and releases led to them |
| PagePartition.RoundTrip | lib/PageAllocator.cpp:121-192 | releasing an allocated group at once restores the whole partition |
| PagePartition.PagesAddUp | lib/PageAllocator.cpp:297-323 | free and used groups together have as many pages as there are |
| PageAllocation.GroupsFitTag | lib/Page.hpp:125 | no group outgrows its region, so every size fits the 21-bit tag |
| PageAllocation.RegionsTellBorder | lib/PageAllocator.cpp:160-182 | getRegion differs for two neighbouring descriptors exactly at a region border |
| PageAllocation.TagsLeadUp | lib/PageAllocator.cpp:156-167 | the descriptor above a group leads through its tag to the start of the preceding group and shows whether that is used |
| PageAllocation.SearchComplete | lib/PageAllocator.cpp:126-145 | the lists from groupIdx(count) on miss no group of at least count pages |
| PageAllocation.PageAllocator.SizeClasses | lib/PageAllocator.cpp:297-323 | free list i holds exactly the free groups of 2^(i+1) up to 2^(i+2) - 1 pages, and list 0 those below 4 pages |
| PageAllocation.PageAllocator.AddGroup | lib/PageAllocator.cpp:297-309 | used bits, tags, lists and the page counter agree with the partition after the group became free |
| PageAllocation.PageAllocator.RemoveGroup | lib/PageAllocator.cpp:311-323 | the same after the group became used |
| PageAllocation.PageAllocator.Allocate | lib/PageAllocator.cpp:121-146 | nullptr exactly if count is 0 or no free group is large enough, and then nothing changed; otherwise the first fit along the lists, split to exactly count pages, and no fitting group is of a smaller size class than the one that was cut |
| PageAllocation.PageAllocator.Release | lib/PageAllocator.cpp:148-192 | exactly the given group leaves the used groups, and the result is fully coalesced without crossing a region border; by `Canonical` this fixes the whole new partition |
| PageAllocation.PageAllocator.GetRegion | lib/PageAllocator.cpp:283-295 | the loop computes the first region that contains the page floor of the address |
| PageAllocation.PageAllocator.GetPage | lib/PageAllocator.cpp:194-211 | the page that contains the address (there is at most one, by `GeometryHolds`), or nullptr exactly if no page does |
| PageAllocation.PageAllocator.ReserveDescPages | lib/PageAllocator.cpp:260-276 | marks the leading k pages, where k pages hold `pagesCount` descriptors of `sizeof(Page)` bytes and k - 1 pages do not |
| PageAllocation.PageAllocator.CountPages | lib/PageAllocator.cpp:235-242 | the pages of all regions |
| PageAllocation.PageAllocator.Init | lib/PageAllocator.cpp:50-103 | succeeds exactly for a valid page size and at most eight regions with some page; then only the descriptor pages are used, just enough for the descriptors of all pages, in a smallest region that fits |
| PageAllocation.PageAllocator.GetStats | lib/PageAllocator.cpp:213-233 | the reported sizes are the bytes of the regions, pages and free pages, up to the 32-bit truncation |
| HeapModel.ChunksTilePage | lib/Zone.cpp:52-61 | the chunks of a page do not overlap, cover every byte of it, and are aligned to their size |
| HeapModel.TakeKeeps | lib/ZoneAllocator.hpp:107-113 | taking a chunk keeps the global invariant and makes exactly that chunk pending |
| HeapModel.BirthKeeps | lib/ZoneAllocator.cpp:172-199 | turning a descriptor chunk and a free page into a zone keeps the global invariant |
| HeapModel.DeathKeeps | lib/ZoneAllocator.cpp:184-209 | removing an unused zone keeps it, returns its page, and leaves exactly its descriptor pending |
| HeapSteps.Dealloc | lib/ZoneAllocator.hpp:121-141 | the recursion of deallocateChunk is well-founded (each level removes a zone) and keeps the invariant; exactly the given chunk stops being pending |
| HeapSteps.DeallocShrinks | lib/ZoneAllocator.hpp:121-141 | what the cascade removes: zones with their pages and descriptors and nothing else; all remaining zones stay busy and a descriptor chunk stays free |
| HeapSteps.TakeUndone | lib/ZoneAllocator.cpp:163-166 | deallocating a chunk just taken restores the heap, list order included |
| HeapSteps.ZoneUndone | lib/ZoneAllocator.cpp:151-170 | emptying a zone just obtained ends exactly where deallocating its descriptor ends |
| HeapSteps.NestedUndone | lib/ZoneAllocator.cpp:151-170 | if the second page is missing after a new descriptor zone was obtained, the roll-back restores the heap |
| HeapSteps.ZonesServeUser | lib/ZoneAllocator.hpp:134-138 | above every zone other than the initial one there is a zone with a chunk the user holds |
| HeapSteps.NoLeak | lib/ZoneAllocator.hpp:121-141 | a heap between two calls in which the user holds nothing consists of the wholly free initial zone only |
| HeapSteps.ServedSettled | lib/ZoneAllocator.cpp:74-95 | a served small request leaves a sound heap with one chunk more, at least as large as requested, and a descriptor chunk in reserve |
| HeapSteps.FreedSettled | lib/ZoneAllocator.cpp:97-107 | a release leaves a sound heap in which exactly the released block is gone |
| HeapSteps.ChunkRoundTrip | lib/ZoneAllocator.cpp:74-107 | releasing a chunk right after it was allocated restores the whole heap, obtained zones and list orders included |
| Zones.Zone.Init | lib/Zone.cpp:44-62 | the loop links exactly the chunks of the page into the free list |
| Zones.Zone.TakeChunk | lib/Zone.cpp:94-103 | the head of the free list, with list and counter in step |
| Zones.Zone.GiveChunk | lib/Zone.cpp:105-111 | pushes the chunk, with list and counter in step |
| Zones.Zone.IsValidChunk | lib/Zone.cpp:113-122 | true exactly for the addresses of the zone's chunks |
| ZoneBuckets.ZoneIdxExact | lib/ZoneAllocator.hpp:223-226 | a power of two has bucket i exactly if it is the chunk size of bucket i |
| ZoneBuckets.BucketsSuffice | lib/ZoneAllocator.hpp:192-226 | the eight buckets hold every chunk size exactly for page sizes up to 4096 |
| ZoneBuckets.NoBucketAt8192 | lib/ZoneAllocator.hpp:192-226 | the page size 8192 is valid, and its chunk size 4096 has an index outside the eight buckets |
| ZoneBuckets.BucketInsert | lib/ZoneAllocator.cpp:192-199 | adding a zone keeps every bucket's list and counter right |
| ZoneBuckets.BucketRemove | lib/ZoneAllocator.cpp:201-209 | removing a zone keeps every bucket's list and counter right |
| ZoneBuckets.BelowNext | lib/ZoneAllocator.cpp:111-128 | each bucket contributes its zones, and its counter times its chunk size, to the sums of getStats |
| ZoneBuckets.NoneBefore | lib/ZoneAllocator.cpp:134-143 | the zone that getFreeZone selects has a free chunk, and no zone before it in the bucket has one |
| Requests.ClassOfLeast | lib/ZoneAllocator.hpp:214-218 | the chunk size of a request is the least power of two that is at least the size and at least 16, so it is 16 or below twice the size |
| Requests.LargeMeans | lib/ZoneAllocator.cpp:79-87 | whole pages are used exactly if no chunk that a page is carved into is large enough |
| Requests.SpareMeans | lib/ZoneAllocator.cpp:145-149 | a bucket serves without a new zone exactly if some zone of its chunk size has a free chunk, or two chunks are free for descriptor chunks |
| Requests.ZoneResultKept | lib/ZoneAllocator.cpp:151-170 | allocateZone fails exactly without a free page, or with one free page and one free descriptor chunk for other chunk sizes; otherwise there are one or, without a second free descriptor chunk, two zones more |
| Requests.PromiseKept | lib/ZoneAllocator.cpp:74-95 | which requests succeed, in free chunks and free pages only: with a spare chunk no page is taken and a free chunk of the least sufficient size is handed out; without one nullptr comes exactly if the pages for a new zone are missing; large requests get just enough pages |
| ZoneAllocation.ZoneAllocator.ChunkSize | lib/ZoneAllocator.hpp:214-218 | for every size up to 2^32 the result is a power of two, at least the size and at least 16, and no smaller one is |
| ZoneAllocation.ZoneAllocator.AllocateChunk | lib/ZoneAllocator.hpp:107-113 | hands out the head of the zone's free list and keeps all concrete state in step |
| ZoneAllocation.ZoneAllocator.GetFreeZone | lib/ZoneAllocator.cpp:134-143 | the first zone of the bucket with a free chunk (see `ZoneBuckets.NoneBefore`), or nullptr exactly if there is none |
| ZoneAllocation.ZoneAllocator.FindZone | lib/ZoneAllocator.cpp:211-226 | the zone the address is a chunk of, or nullptr exactly if it is no chunk of any zone |
| ZoneAllocation.ZoneAllocator.InitZone | lib/ZoneAllocator.cpp:172-182 | fails exactly without a free page; otherwise the page is carved into free chunks |
| ZoneAllocation.ZoneAllocator.AddZone | lib/ZoneAllocator.cpp:192-199 | the zone heads its bucket, and the table stays right |
| ZoneAllocation.ZoneAllocator.RemoveZone | lib/ZoneAllocator.cpp:201-209 | the table is right for the remaining zones |
| ZoneAllocation.ZoneAllocator.ClearZone | lib/ZoneAllocator.cpp:184-190 | the page is returned and the zone object is gone |
| ZoneAllocation.ZoneAllocator.DeallocateChunk | lib/ZoneAllocator.hpp:121-141 | true exactly for a chunk in use, and then the concrete state follows the abstract cascade; terminates because each level removes a zone |
| ZoneAllocation.ZoneAllocator.AllocateZone | lib/ZoneAllocator.cpp:151-170 | nullptr exactly if no page is free, or if one page and one descriptor chunk are free and the zone is not for descriptors; heap and page partition are then unchanged. Otherwise there is one zone more, or two if a descriptor zone had to come first; both asserts hold and the recursion is one level deep |
| ZoneAllocation.ZoneAllocator.Allocate | lib/ZoneAllocator.cpp:74-95 | a request for which a chunk is spare gets a free chunk of the least sufficient size and takes no page; otherwise nullptr exactly if the pages for the new zones, or a large enough group of free pages, are missing, with nothing changed; a large request gets just enough pages |
| ZoneAllocation.ZoneAllocator.Release | lib/ZoneAllocator.cpp:97-107 | nullptr is ignored, a chunk goes through the cascade, and any other held address returns its page group |
| ZoneAllocation.ZoneAllocator.Init | lib/ZoneAllocator.cpp:49-62 | succeeds exactly if there is a free page; then the initial zone is the only one and none of its chunks is in use |
| ZoneAllocation.ZoneAllocator.GetStats | lib/ZoneAllocator.cpp:109-132 | zone bytes, descriptor bytes and free chunk bytes of the abstract heap, the last one in 32 bits |
| HeapSafety.NoOverlap | lib/ZoneAllocator.cpp:74-107 | no byte belongs to two of: user chunks, user page groups, free chunks, free pages, zone descriptors, page descriptors |
| HeapSafety.EveryByteOwned | lib/ZoneAllocator.cpp:74-107 | every byte of every page belongs to one of them |
| HeapSafety.DescriptorOwned | lib/PageAllocator.cpp:260-276 | every byte of every page descriptor, `sizeof(Page)` bytes per page counted from the start of the reserved pages, is owned by the reserved pages |
| HeapSafety.LastReservedNeeded | lib/PageAllocator.cpp:260-276 | a byte of some page descriptor lies in the last reserved page |
| HeapRuns.StepKeeps | lib/ZoneAllocator.cpp:74-107 | every call keeps the state sound, and the descriptor pages, the initial zone and the page layout in place |
| HeapRuns.AllocateHolds | lib/ZoneAllocator.cpp:74-95 | allocate returns an address not held before, and the user then holds exactly that block more |
| HeapRuns.ReleaseHolds | lib/ZoneAllocator.cpp:97-107 | release takes exactly that block away |
| HeapRuns.HeldApart | lib/ZoneAllocator.cpp:74-95 | the requested bytes of two held blocks do not overlap |
| HeapRuns.CallRoundTrip | lib/ZoneAllocator.cpp:74-107 | release right after allocate restores heap and page partition exactly |
| HeapRuns.RunKeeps | lib/allocator.cpp:83-91 | every state of every run is sound, and no run frees or hands out the descriptor pages |
| HeapRuns.RunSafety | lib/allocator.cpp:83-91 | in every state of every run each byte of each page has exactly one owner |
| HeapRuns.RunDescriptors | lib/PageAllocator.cpp:260-276 | in every state of every run all bytes of all page descriptors are owned by the reserved pages |
| HeapRuns.RunNoLeak | lib/allocator.cpp:83-91 | whenever the user holds nothing, the partition is the one after init and only the unused initial zone is left |
| Accounting.UsedPagesAddUp | lib/allocator.cpp:97-106 | the used pages are the descriptor pages, one page per zone, and the user's pages |
| Accounting.ZoneBytesAddUp | lib/ZoneAllocator.cpp:119-129 | the zone bytes are free chunks, user chunks, and one descriptor for every zone but the initial one |
| Statistics.BytesAddUp | lib/allocator.cpp:93-110 | all pages are allocated bytes, free bytes, descriptor pages and zone descriptors |
| Statistics.StatsExact | lib/allocator.cpp:93-110 | exactly when each reported number is right, given the 32-bit accumulators; all are, without wrap-around, exactly below 4 GiB |
| Allocator.Allocator.Init | lib/allocator.cpp:58-66 | succeeds exactly for a valid page size and at most eight regions with at least two pages; the pages set aside are just enough for all page descriptors, nothing is held, and a run starts |
| Allocator.Allocator.InitRange | lib/allocator.cpp:68-75 | succeeds exactly for a valid page size if two aligned pages fit into the range |
| Allocator.Allocator.Allocate | lib/allocator.cpp:83-86 | the call is an allocate step of the run theorems, and keeps the promise of `Requests.PromiseKept` |
| Allocator.Allocator.Release | lib/allocator.cpp:88-91 | the call is a release step of the run theorems |
| Allocator.Allocator.GetStats | lib/allocator.cpp:93-110 | the computed statistics are exact exactly below 4 GiB, with the exact conditions for the free and the allocated bytes |
| Allocator.BytesOwnedOnce | lib/allocator.cpp:83-91 | in the running allocator every byte of every page has exactly one owner |
| Allocator.DescriptorsSafe | lib/PageAllocator.cpp:260-276 | in the running allocator every byte of the descriptor array, from the start of the region that init chose, is owned by the reserved pages |
| Allocator.ReserveTight | lib/PageAllocator.cpp:260-276 | in the running allocator the last reserved page holds a byte of a page descriptor |
| Allocator.HeldInRegion | lib/PageAllocator.hpp:81 | in the running allocator every block lies inside the aligned part of one region |
| Allocator.NothingLeaks | lib/allocator.cpp:83-91 | in the running allocator nothing is left behind once everything is released |
| Allocator.NothingAllocatedIff | test/liballocator-tests/unit/allocator.cpp:185-189 | the allocated bytes are zero exactly if the user holds nothing |
| AllocatorUsage.InitSingleRegion | test/liballocator-tests/unit/allocator.cpp:96-105 | the single region of the unit test is accepted, the allocator describes that region, and the statistics are those the test demands |
| AllocatorUsage.StatsOverflow | lib/PageAllocator.cpp:219-224 | with a region of 4 GiB, which is accepted, the total is reported as 0 and the statistics are not exact |
| AllocatorUsage.AllocateAndReleaseAll | test/liballocator-tests/unit/allocator.cpp:167-189 | the scenario of the unit test for any sizes: after releasing all results the partition is the old one and nothing is allocated |

## Left out

- Byte-level layout: list nodes and zone descriptors live in the chunks themselves in the source; here they
  are objects and map entries keyed by address, and `HeapSafety.NoOverlap` says that those chunks are
  disjoint from the user's blocks. That the user does not write outside of a block is the user's duty.
- Target: `std::size_t` has 64 bits. `sizeof(Page)`, `sizeof(Zone)` and with it the descriptor chunk size have no
  fixed value (8 to 32 bytes, and anything that rounds up to 16, 32 or 64), so 32-bit layouts are covered but not
  the wrap-around of 32-bit words in `getStats` and `roundPowerOf2`. The packing of `PageFlags` is modelled only
  by its 21-bit size limit.
- Floating point: `floor(log2(n))` and `ceil(double / double)` are integer functions here; they agree for all
  sizes below 2^53, and larger requests exceed the available pages either way.
- Bits.RoundPowerOf2: is stated up to 2^32, because the smearing stops at 16 bits; larger requests take the
  page branch of `allocate`, which does not use the result.
- PageAllocation.PageAllocator.Init: requires disjoint regions none of which ends where a later one starts, a
  non-null start, fewer than 2^21 pages per region, no wrap-around of the address space, and a first region that
  can hold the descriptors. `GetPageCompleteIff`, `GroupIdxInTable` and `ChooseDescRegion` state the exact conditions
  for the listing order, the number of pages and the first region; what the code then does to memory is not
  modelled, nor is a page at address 0, which `allocate` could not tell from a failure.
- Allocator.Allocator.Init: requires in addition a page size of at most 4096, see `BucketsSuffice`.
- Allocator.Allocator.InitRange: requires the same of its one range: a non-null start not above the end, fewer than
  2^21 pages, and a page size of at most 4096.
- ZoneAllocation.ZoneAllocator.Release: requires nullptr or an address the user holds; double release and
  foreign pointers are not modelled.
- Table of regions: the fixed array of eight entries is a sequence that grows as entries become valid, and the
  null descriptor pointers of a cleared entry are index 0.
- `isValidPage` compares descriptor indices; the comparison of a pointer before the array is that of index -1.
- Threads: the code has no locking; runs are sequential.
- `version()`, the tools, the demo and the vendor drivers.
