/** The usage that the unit test of allocator.cpp exercises: many allocations of any size, then all of them
    released. */
module AllocatorUsage {
  import opened Accounting
  import opened Allocator
  import opened Bits
  import opened HeapModel
  import opened HeapRuns
  import opened HeapSteps
  import opened ListNode
  import opened PageAllocation
  import opened Regions
  import opened Statistics

  /** The user holds exactly the non-null pointers of the list, each once. */
  ghost predicate HoldsExactly(h: Heap, ptrs: seq<Ptr>)
  {
    && (forall x :: Holds(h, x) <==> At(x) in ptrs)
    && (forall i, j | 0 <= i < j < |ptrs| && ptrs[i].At? :: ptrs[i] != ptrs[j])
  }

  lemma OneMore(s: Snapshot, size: nat, ptr: Ptr, r: Snapshot, ptrs: seq<Ptr>)
    requires Sound(s) && Step(s, Allocated(size, ptr), r) && HoldsExactly(s.heap, ptrs)
    ensures HoldsExactly(r.heap, ptrs + [ptr])
  {
    hide Sound, Step, Holds;
    HeldAfterCall(s, Allocated(size, ptr), r);
  }

  lemma OneLess(s: Snapshot, r: Snapshot, ptrs: seq<Ptr>, i: nat)
    requires Sound(s) && i < |ptrs| && Step(s, Released(ptrs[i]), r) && HoldsExactly(s.heap, ptrs[i..])
    ensures HoldsExactly(r.heap, ptrs[i + 1..])
  {
    hide Sound, Step, Holds;
    HeldAfterCall(s, Released(ptrs[i]), r);
    var rest, tail := ptrs[i..], ptrs[i + 1..];
    assert rest[0] == ptrs[i] && rest[1..] == tail;
    forall x ensures Holds(r.heap, x) <==> At(x) in tail {
      if At(x) in rest && At(x) != rest[0] {
        var k :| 0 <= k < |rest| && rest[k] == At(x);
        assert tail[k - 1] == At(x);
      }
    }
  }

  lemma NoneLeft(h: Heap)
    ensures HoldsExactly(h, []) <==> forall x :: !Holds(h, x)
  {
  }

  lemma FirstHeld(h: Heap, ptrs: seq<Ptr>, i: nat)
    requires i < |ptrs| && HoldsExactly(h, ptrs[i..]) && ptrs[i].At?
    ensures Holds(h, ptrs[i].addr)
  {
    assert ptrs[i..][0] == ptrs[i];
  }

  lemma ValidIsSound(a: Allocator)
    requires a.Valid()
    ensures Sound(a.Current())
  {
    hide Sound, Reached;
    ReachedSound(a.states, a.events, a.Current());
  }

  lemma TestPages()
    ensures IsValidPageSize(256) && TwoPages(0x1_0000, 0x1_0000 + 256 * 535, 256)
    ensures 0x1_0000 + 256 * 535 < Pow2(WORD) && 256 * 535 < PageAddress(0, PAGE_LIMIT, 256)
  {
    hide Pow2, BitAnd;
    WordSizes();
    IsPowerOf2Correct(256);
    PowerOf256();
    assert 0x1_0000 % 256 == 0;
  }

  lemma PowerOf256()
    ensures PowerOf2(256)
  {
    assert Pow2(4) == 16;
    Pow2Add(4, 4);
  }

  /** The single region of the test, 535 pages of 256 bytes, is accepted, and the statistics are those that the
      test demands. All preconditions and invariants of the running allocator can be met. */
  method InitSingleRegion() returns (a: Allocator, stats: Stats)
    ensures fresh(a) && fresh(a.zoneAllocator.Footprint()) && a.Valid() && HoldsExactly(a.zoneAllocator.h, [])
    ensures OneRegion(a.pageAllocator.regionsInfo, 0x1_0000, 0x1_0000 + 256 * 535)
    ensures stats.totalMemorySize == 256 * 535 == stats.reservedMemorySize + stats.userMemorySize
    ensures stats.allocatedMemorySize == 0 && stats.freeMemorySize == stats.userMemorySize
  {
    hide Allocator.Valid, JustStarted, TwoPages, Pow2, IsValidPageSize, PageAddress, HoldsExactly, Holds, OneRegion,
         TotalSize, AllocatedBytes, FreeBytes, Sound;
    a := new Allocator();
    TestPages();
    var ok := a.InitRange(0x1_0000, 0x1_0000 + 256 * 535, 256);
    StartedHoldsNothing(a.zoneAllocator.h, 256);
    NoneLeft(a.zoneAllocator.h);
    ValidIsSound(a);
    NothingAllocatedIff(a.Current());
    stats := a.GetStats();
  }

  lemma FourGigabytes()
    ensures IsValidPageSize(4096) && TwoPages(4096, 4096 + 0x1_0000_0000, 4096)
    ensures 4096 + 0x1_0000_0000 < Pow2(WORD) && 0x1_0000_0000 < PageAddress(0, PAGE_LIMIT, 4096)
    ensures Truncate(0x1_0000_0000, UINT) == 0
  {
    hide Pow2, BitAnd;
    WordSizes();
    PowerOf4096();
    IsPowerOf2Correct(4096);
    assert 4096 % 4096 == 0;
  }

  lemma PowerOf4096()
    ensures PowerOf2(4096)
  {
    assert Pow2(6) == 64;
    Pow2Add(6, 6);
  }

  /** With 4 GiB of memory, which init accepts, getStats reports a total of 0 bytes. */
  method StatsOverflow() returns (a: Allocator, stats: Stats)
    ensures fresh(a) && a.Valid() && OneRegion(a.pageAllocator.regionsInfo, 4096, 4096 + 0x1_0000_0000)
    ensures stats.totalMemorySize == 0
    ensures !Exact(stats, a.zoneAllocator.h, a.pageAllocator.st, TotalSize(a.pageAllocator.regionsInfo))
  {
    hide Allocator.Valid, JustStarted, TwoPages, Pow2, IsValidPageSize, PageAddress, OneRegion, TotalSize, Exact,
         Truncate;
    a := new Allocator();
    FourGigabytes();
    var ok := a.InitRange(4096, 4096 + 0x1_0000_0000, 4096);
    stats := a.GetStats();
  }

  lemma StartedHoldsNothing(h: Heap, pageSize: nat)
    requires JustStarted(h, pageSize)
    ensures HoldsExactly(h, [])
  {
  }

  /** The first loop of the test. */
  method AllocateAll(a: Allocator, sizes: seq<nat>) returns (ptrs: seq<Ptr>)
    requires a.Valid() && HoldsExactly(a.zoneAllocator.h, []) && forall size | size in sizes :: size < Pow2(WORD)
    modifies a, a.zoneAllocator.Footprint()
    ensures a.Valid() && HoldsExactly(a.zoneAllocator.h, ptrs) && |ptrs| == |sizes| && old(a.states) <= a.states
    ensures fresh(a.zoneAllocator.Footprint() - old(a.zoneAllocator.Footprint()))
  {
    hide Allocator.Valid, Sound, Step, HoldsExactly, Pow2, Holds;
    ptrs := [];
    var i := 0;
    ghost var footprint := a.zoneAllocator.Footprint();
    while i < |sizes|
      invariant 0 <= i <= |sizes| && a.Valid() && HoldsExactly(a.zoneAllocator.h, ptrs) && |ptrs| == i
        && old(a.states) <= a.states
      invariant footprint == a.zoneAllocator.Footprint() && fresh(footprint - old(a.zoneAllocator.Footprint()))
    {
      assert sizes[i] in sizes;
      var ptr := AllocateNext(a, sizes[i], ptrs);
      footprint := a.zoneAllocator.Footprint();
      ptrs := ptrs + [ptr];
      i := i + 1;
    }
  }

  method AllocateNext(a: Allocator, size: nat, ghost ptrs: seq<Ptr>) returns (ptr: Ptr)
    requires a.Valid() && HoldsExactly(a.zoneAllocator.h, ptrs) && size < Pow2(WORD)
    modifies a, a.zoneAllocator.Footprint()
    ensures a.Valid() && HoldsExactly(a.zoneAllocator.h, ptrs + [ptr]) && old(a.states) <= a.states
    ensures fresh(a.zoneAllocator.Footprint() - old(a.zoneAllocator.Footprint()))
  {
    hide Allocator.Valid, Sound, Step, HoldsExactly, Pow2, Holds;
    ValidIsSound(a);
    ghost var s := a.Current();
    ptr := a.Allocate(size);
    OneMore(s, size, ptr, a.Current(), ptrs);
  }

  /** The second loop of the test. */
  method ReleaseAll(a: Allocator, ptrs: seq<Ptr>)
    requires a.Valid() && HoldsExactly(a.zoneAllocator.h, ptrs)
    modifies a, a.zoneAllocator.Footprint()
    ensures a.Valid() && HoldsExactly(a.zoneAllocator.h, []) && old(a.states) <= a.states
  {
    hide Allocator.Valid, Sound, Step, HoldsExactly, Holds;
    var i := 0;
    assert ptrs[0..] == ptrs;
    ghost var footprint := a.zoneAllocator.Footprint();
    while i < |ptrs|
      invariant 0 <= i <= |ptrs| && a.Valid() && HoldsExactly(a.zoneAllocator.h, ptrs[i..]) && old(a.states) <= a.states
      invariant footprint == a.zoneAllocator.Footprint() && fresh(footprint - old(a.zoneAllocator.Footprint()))
    {
      ReleaseNext(a, ptrs, i);
      footprint := a.zoneAllocator.Footprint();
      i := i + 1;
    }
    assert ptrs[i..] == [];
  }

  method ReleaseNext(a: Allocator, ptrs: seq<Ptr>, i: nat)
    requires a.Valid() && i < |ptrs| && HoldsExactly(a.zoneAllocator.h, ptrs[i..])
    modifies a, a.zoneAllocator.Footprint()
    ensures a.Valid() && HoldsExactly(a.zoneAllocator.h, ptrs[i + 1..]) && old(a.states) <= a.states
    ensures fresh(a.zoneAllocator.Footprint() - old(a.zoneAllocator.Footprint()))
  {
    hide Allocator.Valid, Sound, Step, HoldsExactly, Holds;
    ValidIsSound(a);
    ghost var s := a.Current();
    if ptrs[i].At? { FirstHeld(a.zoneAllocator.h, ptrs, i); }
    a.Release(ptrs[i]);
    OneLess(s, a.Current(), ptrs, i);
  }

  /** Whatever sizes are asked for, releasing everything that was returned leaves the page partition as it was
      and nothing allocated. */
  method AllocateAndReleaseAll(a: Allocator, sizes: seq<nat>)
    requires a.Valid() && HoldsExactly(a.zoneAllocator.h, []) && forall size | size in sizes :: size < Pow2(WORD)
    modifies a, a.zoneAllocator.Footprint()
    ensures a.Valid() && HoldsExactly(a.zoneAllocator.h, []) && a.pageAllocator.st == old(a.pageAllocator.st)
    ensures AllocatedBytes(a.zoneAllocator.h) == 0
  {
    hide Allocator.Valid, Sound, HoldsExactly, Pow2, Holds, AllocatedBytes;
    NoneLeft(a.zoneAllocator.h);
    NothingLeaks(a);
    var ptrs := AllocateAll(a, sizes);
    ReleaseAll(a, ptrs);
    NoneLeft(a.zoneAllocator.h);
    NothingLeaks(a);
    ValidIsSound(a);
    NothingAllocatedIff(a.Current());
  }
}
