/** The public interface (allocator.cpp): both layers together, with the run of calls made so far. */
module Allocator {
  import opened Accounting
  import opened Bits
  import opened HeapModel
  import opened HeapRuns
  import opened HeapSafety
  import opened HeapSteps
  import opened ListNode
  import opened PageAllocation
  import opened PagePartition
  import opened Regions
  import opened Requests
  import opened Statistics
  import opened Sums
  import opened ZoneAllocation
  import opened ZoneBuckets
  import Z = Zones

  /** A state with its history. */
  ghost predicate Reached(states: seq<Snapshot>, events: seq<Event>, s: Snapshot)
  {
    && Run(states, events) && Fresh(states[0]) && states[|events|] == s
  }

  lemma ReachedSound(states: seq<Snapshot>, events: seq<Event>, s: Snapshot)
    requires Reached(states, events, s)
    ensures Sound(s)
  {
    hide Run, Sound;
    assert |states| == |events| + 1 by { RunLength(states, events); }
    RunKeeps(states, events, |events|);
  }

  lemma RunLength(states: seq<Snapshot>, events: seq<Event>)
    requires Run(states, events)
    ensures |states| == |events| + 1
  {
  }

  /** One more call extends the history. */
  lemma RunExtended(states: seq<Snapshot>, events: seq<Event>, s: Snapshot, e: Event, r: Snapshot)
    requires Reached(states, events, s) && Step(s, e, r)
    ensures Reached(states + [r], events + [e], r) && |states| > 0 && (states + [r])[0] == states[0]
  {
    hide Step, Sound;
    var ss, es := states + [r], events + [e];
    assert ss[0] == states[0];
    forall i | 0 <= i < |es| ensures Step(ss[i], es[i], ss[i + 1]) {
      if i < |events| {
        assert ss[i] == states[i] && ss[i + 1] == states[i + 1] && es[i] == events[i];
      }
    }
  }

  lemma RunStarted(s: Snapshot)
    requires Fresh(s)
    ensures Reached([s], [], s)
  {
  }

  /** Sound states of the two layers. */
  lemma LayersSound(za: ZoneAllocator)
    requires za.Valid()
    ensures WellFormed(za.h, za.pageAllocator.st)
    ensures za.pageAllocator.st.n == |za.pageAllocator.addrs|
      && za.pageAllocator.st.borders == Borders(za.pageAllocator.regionsInfo)
  {
    hide Inv, Agree, ChunkLists, Bucketed;
    za.PagesOfState();
    GeometryHolds(za.pageAllocator.regionsInfo, za.pageAllocator.pageSize, za.h.addrs);
  }

  class Allocator {
    const pageAllocator: PageAllocator
    const zoneAllocator: ZoneAllocator

    /** All states since init, and the calls between them. */
    ghost var states: seq<Snapshot>
    ghost var events: seq<Event>

    constructor ()
      ensures zoneAllocator.pageAllocator == pageAllocator && fresh(pageAllocator) && fresh(zoneAllocator)
    {
      var pages := new PageAllocator();
      pageAllocator := pages;
      zoneAllocator := new ZoneAllocator(pages);
      states, events := [], [];
    }

    ghost function Current(): Snapshot
      reads zoneAllocator, pageAllocator
    {
      Snapshot(zoneAllocator.h, pageAllocator.st)
    }

    /** What holds between calls once init succeeded: the current state is reached by the calls made. */
    ghost predicate Valid()
      reads this, zoneAllocator, pageAllocator, zoneAllocator.Footprint()
    {
      && zoneAllocator.pageAllocator == pageAllocator
      && zoneAllocator.Valid()
      && |pageAllocator.regionsInfo| <= MAX_REGIONS
      && Reached(states, events, Current())
      && DescriptorsFit(states[0].heap)
    }

    /** The history is no part of what the layers read. */
    lemma Outside()
      ensures this !in zoneAllocator.Footprint()
    {
      var o: object := this;
      forall x | x in zoneAllocator.Objs() ensures x is Z.Zone { }
      assert !(o is Z.Zone);
    }

    method Clear()
      modifies this, pageAllocator, zoneAllocator
      ensures zoneAllocator.pageAllocator == old(zoneAllocator.pageAllocator)
    {
      pageAllocator.Clear();
      zoneAllocator.Clear();
      states, events := [], [];
    }

    /** init: succeeds exactly for a valid page size and at most eight regions with at least two pages. The
        descriptor array is covered by a used group of its own, and nothing is handed out yet. */
    method Init(regions: seq<Region>, pageSize: nat) returns (ok: bool)
      requires zoneAllocator.pageAllocator == pageAllocator
      requires Terminated(regions) && pageSize < Pow2(WORD)
      requires forall i | 0 <= i < EntryCount(regions) :: Representable(regions[i])
      requires IsValidPageSize(pageSize) && EntryCount(regions) <= MAX_REGIONS ==>
        PowerOf2(pageSize) && pageSize <= MAX_PAGE_SIZE && SoundTable(Table(regions, pageSize, EntryCount(regions)))
      modifies this, pageAllocator, zoneAllocator
      ensures ok <==> IsValidPageSize(pageSize) && EntryCount(regions) <= MAX_REGIONS
                      && TotalPages(Table(regions, pageSize, EntryCount(regions))) >= 2
      ensures ok ==> Valid() && states == [Current()] && events == [] && JustStarted(zoneAllocator.h, pageSize)
      ensures ok ==>
        && PowerOf2(pageSize)
        && SameTable(pageAllocator.regionsInfo, Table(regions, pageSize, EntryCount(regions)))
      ensures ok ==> fresh(zoneAllocator.Footprint() - {zoneAllocator, pageAllocator})
    {
      hide PowerOf2, Representable, SoundTable, Table, TotalPages, Pow2, Covers, ArrayBytes, IsPowerOf2,
           IsValidPageSize, JustCovers, DescriptorsFit, PageAllocator.Valid, ZoneAllocator.Valid, Reached, Fits,
           JustStarted, HoldsPage, InitialPartition, AnyPage, SameTable, WellFormed, Holds, Settled, Tiled, TotalSize;
      SomePage(regions, pageSize);
      Clear();
      ok := pageAllocator.Init(regions, pageSize);
      if !ok {
        return false;
      }
      ghost var table := Table(regions, pageSize, EntryCount(regions));
      PageLayerReady(pageAllocator, table, pageSize);
      TableLength(regions, pageSize, EntryCount(regions));
      ok := InitZones(pageSize);
    }

    /** The second half of init. */
    method InitZones(pageSize: nat) returns (ok: bool)
      requires zoneAllocator.pageAllocator == pageAllocator && pageAllocator.Valid()
      requires pageAllocator.pageSize == pageSize && MINIMAL_PAGE_SIZE <= pageSize <= MAX_PAGE_SIZE
      requires |pageAllocator.regionsInfo| <= MAX_REGIONS && pageAllocator.descRegionIdx < |pageAllocator.regionsInfo|
      requires var first := pageAllocator.regionsInfo[pageAllocator.descRegionIdx].firstPage;
        pageAllocator.st.used == map[first := pageAllocator.descPagesCount]
      requires JustCovers(pageAllocator.descPagesCount, pageSize, pageAllocator.pagesCount)
      modifies this, zoneAllocator, pageAllocator`freeGroupLists, pageAllocator`freePagesCount, pageAllocator`st,
               pageAllocator`lists, pageAllocator.pages, pageAllocator.links
      ensures ok <==> old(pageAllocator.freePagesCount) > 0
      ensures ok ==> Valid() && states == [Current()] && events == [] && JustStarted(zoneAllocator.h, pageSize)
      ensures ok ==> fresh(zoneAllocator.Footprint() - {zoneAllocator, pageAllocator, pageAllocator.pages,
        pageAllocator.links})
    {
      hide JustCovers, PageAllocator.Valid, ZoneAllocator.Valid, Reached, JustStarted, DescriptorsFit;
      ok := zoneAllocator.Init(pageSize);
      if ok {
        ZoneLayerReady(zoneAllocator, pageSize);
        Outside();
        states, events := [Current()], [];
      }
    }

    /** init for a single range: succeeds exactly if two aligned pages fit into it. */
    method InitRange(start: nat, end: nat, pageSize: nat) returns (ok: bool)
      requires zoneAllocator.pageAllocator == pageAllocator
      requires 0 < start <= end < Pow2(WORD) && pageSize <= MAX_PAGE_SIZE
      requires end - start < PageAddress(0, PAGE_LIMIT, pageSize)
      modifies this, pageAllocator, zoneAllocator
      ensures ok <==> IsValidPageSize(pageSize) && 0 < pageSize && TwoPages(start, end, pageSize)
      ensures ok ==> Valid() && states == [Current()] && events == [] && JustStarted(zoneAllocator.h, pageSize)
      ensures ok ==> fresh(zoneAllocator.Footprint() - {zoneAllocator, pageAllocator})
      ensures ok ==>
        && OneRegion(pageAllocator.regionsInfo, start, end)
        && TotalSize(pageAllocator.regionsInfo) == end - start
    {
      hide Valid, Pow2, PowerOf2, IsPowerOf2, TwoPages, OneRegion, SameTable, TotalSize, SoundTable, Table,
           TotalPages, PageAddress, JustStarted, EntryCount, Terminated, Representable;
      SingleEntries(start, end);
      WordBounds();
      PageSizeIsWord(pageSize);
      if IsValidPageSize(pageSize) {
        IsPowerOf2Correct(pageSize);
        SingleTable(start, end, pageSize);
      }
      ok := Init(Single(start, end), pageSize);
      if ok {
        OneRegionKept(pageAllocator.regionsInfo, Table(Single(start, end), pageSize, EntryCount(Single(start, end))),
            start, end);
      }
    }

    lemma Wired()
      requires Valid()
      ensures zoneAllocator.pageAllocator == pageAllocator && zoneAllocator.Valid()
        && |pageAllocator.regionsInfo| <= MAX_REGIONS
    {
    }

    /** allocate: one step of the run, which keeps the promise to the caller. */
    method Allocate(size: nat) returns (ptr: Ptr)
      requires Valid() && size < Pow2(WORD)
      modifies this, zoneAllocator.Footprint()
      ensures Valid() && Step(old(Current()), Allocated(size, ptr), Current())
      ensures Promise(old(zoneAllocator.h), old(pageAllocator.st), size, ptr, zoneAllocator.h, pageAllocator.st)
      ensures states == old(states) + [Current()] && events == old(events) + [Allocated(size, ptr)]
      ensures fresh(zoneAllocator.Footprint() - old(zoneAllocator.Footprint()))
    {
      hide ZoneAllocator.Valid, Reached, WellFormed, Borders, Step, Run, Fresh, Pow2, CannotServe, Served, Promise,
           DescriptorsFit;
      ghost var s := Current();
      LayersSound(zoneAllocator);
      ghost var w;
      ptr, w := zoneAllocator.Allocate(size);
      LayersSound(zoneAllocator);
      AllocateStep(s, size, ptr, w, Current());
      RunExtended(states, events, s, Allocated(size, ptr), Current());
      Outside();
      states, events := states + [Current()], events + [Allocated(size, ptr)];
    }

    /** release: accepts nullptr and every address the user holds. */
    method Release(ptr: Ptr)
      requires Valid() && (ptr.At? ==> Holds(zoneAllocator.h, ptr.addr))
      modifies this, zoneAllocator.Footprint()
      ensures Valid() && Step(old(Current()), Released(ptr), Current())
      ensures states == old(states) + [Current()] && events == old(events) + [Released(ptr)]
      ensures fresh(zoneAllocator.Footprint() - old(zoneAllocator.Footprint()))
    {
      hide ZoneAllocator.Valid, Reached, WellFormed, Borders, Step, Run, Fresh, Holds, Freed, DescriptorsFit;
      ghost var s := Current();
      LayersSound(zoneAllocator);
      zoneAllocator.Release(ptr);
      LayersSound(zoneAllocator);
      ReleaseStep(s, ptr, Current());
      RunExtended(states, events, s, Released(ptr), Current());
      Outside();
      states, events := states + [Current()], events + [Released(ptr)];
    }

    /** getStats: exact if all regions together are below 4 GiB, and otherwise never. */
    method GetStats() returns (stats: Stats)
      requires Valid()
      ensures Exact(stats, zoneAllocator.h, pageAllocator.st, TotalSize(pageAllocator.regionsInfo))
         <==> TotalSize(pageAllocator.regionsInfo) < UINT_RANGE
      ensures stats.totalMemorySize == Truncate(TotalSize(pageAllocator.regionsInfo), UINT)
      ensures stats.freeMemorySize == FreeBytes(zoneAllocator.h, pageAllocator.st)
         <==> Sum(FreeChunkBytes(zoneAllocator.h.zones)) < UINT_RANGE
      ensures stats.allocatedMemorySize == AllocatedBytes(zoneAllocator.h)
         <==> SameLoss(zoneAllocator.h, pageAllocator.st)
    {
      hide Valid, ZoneAllocator.Valid, PageAllocator.Valid, Settled, Tiled, Exact, AllocatedBytes, FreeBytes,
           TotalSize, Times, Sum, FreeChunkBytes, Truncate, Combine, Pow2, Reported, ZoneAllocator.State;
      Wired();
      StatsReady(zoneAllocator);
      var pageStats := pageAllocator.GetStats();
      assert unchanged(zoneAllocator.Footprint());
      var zoneStats := zoneAllocator.GetStats();
      ReportedIntro(zoneAllocator.h, pageAllocator.st, TotalSize(pageAllocator.regionsInfo), pageStats, zoneStats);
      StatsExact(zoneAllocator.h, pageAllocator.st, TotalSize(pageAllocator.regionsInfo), pageStats, zoneStats);
      stats := Combine(pageStats, zoneStats);
    }
  }

  lemma PageSizeIsWord(pageSize: nat)
    requires pageSize <= MAX_PAGE_SIZE
    ensures pageSize < Pow2(WORD)
  {
    hide Pow2;
    WordSizes();
  }

  lemma SomePage(regions: seq<Region>, pageSize: nat)
    requires Terminated(regions)
    requires forall i | 0 <= i < EntryCount(regions) :: Representable(regions[i])
    requires IsValidPageSize(pageSize) && EntryCount(regions) <= MAX_REGIONS ==> PowerOf2(pageSize)
    ensures IsValidPageSize(pageSize) && EntryCount(regions) <= MAX_REGIONS ==>
      && 0 < MINIMAL_PAGE_SIZE <= pageSize
      && (AnyPage(regions, pageSize, EntryCount(regions))
         <==> TotalPages(Table(regions, pageSize, EntryCount(regions))) > 0)
  {
    hide PowerOf2, Representable, Table, TotalPages, IsPowerOf2, AnyPage;
    if IsValidPageSize(pageSize) && EntryCount(regions) <= MAX_REGIONS {
      TableNonEmpty(regions, pageSize, EntryCount(regions));
    }
  }

  /** After the page layer's init: what the zone layer's init needs, and when it will find a free page. */
  lemma PageLayerReady(pa: PageAllocator, table: seq<RegionInfo>, pageSize: nat)
    requires pa.Valid() && pa.pageSize == pageSize >= MINIMAL_PAGE_SIZE && SameTable(pa.regionsInfo, table)
    requires JustCovers(pa.descPagesCount, pageSize, pa.pagesCount)
    requires pa.descRegionIdx < |pa.regionsInfo|
    requires InitialPartition(pa.st, pa.regionsInfo[pa.descRegionIdx].firstPage, pa.descPagesCount)
    ensures pa.freePagesCount > 0 <==> TotalPages(table) >= 2
    ensures pa.st.used == map[pa.regionsInfo[pa.descRegionIdx].firstPage := pa.descPagesCount]
    ensures |pa.regionsInfo| == |table| && pa.pagesCount == |pa.addrs| == TotalPages(table)
  {
    hide Sum, TotalPages, JustCovers, Consistent, Tiled, Coalesced, Chained;
    FreePageFacts(pa);
    ChainedTotal(pa.regionsInfo, |pa.addrs|);
    SameTotal(pa.regionsInfo, table);
    var first := pa.regionsInfo[pa.descRegionIdx].firstPage;
    SumInsert(map[], first, pa.descPagesCount);
    SumEmpty();
    assert map[][first := pa.descPagesCount] == pa.st.used;
    DescriptorsLeaveRoom(pa.descPagesCount, pa.pagesCount, pageSize);
  }

  /** The heap right after init: nothing held, and exactly the pages that the descriptor array needs are set
      aside for it. */
  ghost predicate JustStarted(h: Heap, pageSize: nat)
  {
    && h.pageSize == pageSize && (forall addr :: !Holds(h, addr))
    && DescriptorsFit(h)
  }

  /** After the zone layer's init: a run starts. */
  lemma ZoneLayerReady(za: ZoneAllocator, pageSize: nat)
    requires za.Valid() && |za.pageAllocator.regionsInfo| <= MAX_REGIONS
    requires za.h.pageSize == pageSize && za.h.live == map[] && za.h.blocks == map[]
    requires JustCovers(za.pageAllocator.descPagesCount, pageSize, za.pageAllocator.pagesCount)
    ensures var s := Snapshot(za.h, za.pageAllocator.st); Reached([s], [], s)
    ensures JustStarted(za.h, pageSize) && DescriptorsFit(za.h)
  {
    hide ZoneAllocator.Valid, PageAllocator.Valid, JustCovers, Step, WellFormed, TotalSize, Reached, Settled, Tiled,
         JustStarted;
    LayersSound(za);
    StatsReady(za);
    RunStarted(Snapshot(za.h, za.pageAllocator.st));
    HeapStarted(za.h, pageSize);
  }

  lemma HeapStarted(h: Heap, pageSize: nat)
    requires h.pageSize == pageSize && h.live == map[] && h.blocks == map[] && DescriptorsFit(h)
    ensures JustStarted(h, pageSize)
  {
    hide DescriptorsFit;
  }

  /** Safety of the running allocator: every byte of every page belongs to exactly one user block, free piece
      or piece of metadata. */
  lemma BytesOwnedOnce(a: Allocator, q: nat, b: nat) returns (x: Piece)
    requires a.Valid() && InPage(a.zoneAllocator.h, q, b)
    ensures Occupies(a.zoneAllocator.h, a.pageAllocator.st, x, b)
    ensures forall y :: Occupies(a.zoneAllocator.h, a.pageAllocator.st, y, b) ==> y == x
  {
    hide Run, Fresh, Occupies, ZoneAllocator.Valid, WellFormed;
    RunLength(a.states, a.events);
    RunKeeps(a.states, a.events, |a.events|);
    x := RunSafety(a.states, a.events, |a.events|, q, b);
  }

  /** In the running allocator every byte of every page descriptor, counted from the start of the region that init
      chose, lies in the reserved pages. */
  lemma DescriptorsSafe(a: Allocator, q: nat, b: nat)
    requires a.Valid() && a.pageAllocator.descRegionIdx < |a.pageAllocator.regionsInfo|
    requires q < a.pageAllocator.pagesCount
    requires var start := a.pageAllocator.regionsInfo[a.pageAllocator.descRegionIdx].alignedStart;
      start + q * SIZEOF_PAGE <= b < start + q * SIZEOF_PAGE + SIZEOF_PAGE
    ensures Occupies(a.zoneAllocator.h, a.pageAllocator.st, DescriptorPages(a.zoneAllocator.h.reserved), b)
  {
    hide Run, Fresh, Occupies, InDescriptor, ZoneAllocator.Valid, WellFormed, DescriptorsFit;
    ReservedNow(a);
    ArrayStart(a.zoneAllocator);
    var h := a.zoneAllocator.h;
    ByteOfDescriptor(h, q, b);
    DescriptorOwned(h, a.pageAllocator.st, q, b);
  }

  /** None of the reserved pages is wasted: the last one holds a byte y of the descriptor of some page x. */
  lemma ReserveTight(a: Allocator) returns (x: nat, y: nat)
    requires a.Valid()
    ensures a.pageAllocator.descPagesCount > 0 && InDescriptor(a.zoneAllocator.h, x, y)
    ensures InPage(a.zoneAllocator.h, a.zoneAllocator.h.reserved + a.pageAllocator.descPagesCount - 1, y)
  {
    hide Run, Fresh, InDescriptor, ZoneAllocator.Valid, PageAllocator.Valid, WellFormed, DescriptorsFit, TotalSize,
         Settled, Tiled, InPage;
    ReservedNow(a);
    StatsReady(a.zoneAllocator);
    x, y := LastReservedNeeded(a.zoneAllocator.h, a.pageAllocator.st);
  }

  lemma ReservedNow(a: Allocator)
    requires a.Valid()
    ensures WellFormed(a.zoneAllocator.h, a.pageAllocator.st) && DescriptorsFit(a.zoneAllocator.h)
  {
    hide Run, Fresh, Occupies, InDescriptor, ZoneAllocator.Valid, WellFormed, DescriptorsFit;
    RunLength(a.states, a.events);
    RunDescriptors(a.states, a.events, |a.events|);
  }

  lemma ByteOfDescriptor(h: Heap, q: nat, b: nat)
    requires h.reserved < |h.addrs| && q < |h.addrs|
    requires h.addrs[h.reserved] + q * SIZEOF_PAGE <= b < h.addrs[h.reserved] + q * SIZEOF_PAGE + SIZEOF_PAGE
    ensures InDescriptor(h, q, b)
  {
  }

  /** The reserved pages start with the region that init chose. */
  lemma ArrayStart(za: ZoneAllocator)
    requires za.Valid()
    ensures za.pageAllocator.descRegionIdx < |za.pageAllocator.regionsInfo|
      && za.h.reserved < |za.h.addrs| == za.pageAllocator.pagesCount
    ensures za.h.addrs[za.h.reserved] == za.pageAllocator.regionsInfo[za.pageAllocator.descRegionIdx].alignedStart
  {
    hide Inv, Agree, ChunkLists, Bucketed, Consistent, Coalesced;
    FirstAddress(za.pageAllocator.regionsInfo, za.pageSize, za.h.addrs, za.pageAllocator.descRegionIdx);
  }

  lemma FirstAddress(rs: seq<RegionInfo>, pageSize: nat, addrs: seq<nat>, i: nat)
    requires Chained(rs, |addrs|) && Addressed(rs, pageSize, addrs) && i < |rs|
    ensures rs[i].firstPage < |addrs| && addrs[rs[i].firstPage] == rs[i].alignedStart
  {
    assert InRegion(rs[i], rs[i].firstPage);
  }

  /** A block the user holds lies inside the aligned part of one region. */
  lemma HeldInRegion(a: Allocator, addr: nat, size: nat) returns (i: nat)
    requires a.Valid() && HeldSize(a.zoneAllocator.h, addr, size)
    ensures i < |a.pageAllocator.regionsInfo|
    ensures a.pageAllocator.regionsInfo[i].alignedStart <= addr
    ensures addr + size <= a.pageAllocator.regionsInfo[i].alignedEnd
  {
    hide *;
    a.Wired();
    LayersSound(a.zoneAllocator);
    LayersLaidOut(a.zoneAllocator);
    i := HeldInLayout(a.zoneAllocator.h, a.pageAllocator.st, a.pageAllocator.regionsInfo, addr, size);
  }

  lemma LayersLaidOut(za: ZoneAllocator)
    requires za.Valid()
    ensures Layout(za.pageAllocator.regionsInfo, za.h.pageSize, za.h.addrs, za.pageAllocator.st)
  {
    hide Inv, Agree, ChunkLists, Bucketed, Layout;
  }

  lemma HeldInLayout(h: Heap, p: Pages, rs: seq<RegionInfo>, addr: nat, size: nat) returns (i: nat)
    requires WellFormed(h, p) && Layout(rs, h.pageSize, h.addrs, p) && HeldSize(h, addr, size)
    ensures i < |rs| && rs[i].alignedStart <= addr && addr + size <= rs[i].alignedEnd
  {
    hide Settled, Tiled, Coalesced, Geometry, Layout, PageAddress;
    if addr in h.live && h.live[addr] == size {
      var q := LivePage(h, addr);
      i := PageInRegion(rs, h.pageSize, h.addrs, p, q);
    } else {
      var s :| HoldsBlock(h, addr, s) && h.blocks[s] == size;
      BlockFits(h, s);
      UsedNotFree(p, s);
      UsedIsStart(p, s);
      i := GroupInRegion(rs, h.pageSize, h.addrs, p, s);
      PageAddressShift(addr, Size(p, s), h.pageSize);
    }
  }

  lemma LivePage(h: Heap, c: nat) returns (q: nat)
    requires Settled(h) && c in h.live
    ensures q < |h.addrs| && h.addrs[q] <= c && c + h.live[c] <= h.addrs[q] + h.pageSize
  {
    hide Inv, FreeIn;
    LiveChunk(h, c);
    HostedIn(h, c);
    ZoneIsOk(h, h.host[c]);
    q := h.zones[h.host[c]].page;
    SettledApart(h);
    PageOfChunk(h, h.zones[h.host[c]], c);
  }

  lemma PageInRegion(rs: seq<RegionInfo>, pageSize: nat, addrs: seq<nat>, p: Pages, q: nat) returns (i: nat)
    requires Layout(rs, pageSize, addrs, p) && q < |addrs|
    ensures i < |rs| && rs[i].alignedStart <= addrs[q] && addrs[q] + pageSize <= rs[i].alignedEnd
  {
    i := RegionOfPage(rs, |addrs|, q);
    AddressFacts(rs[i], q, pageSize);
  }

  /** No leak in the running allocator: once the user has released everything, in whatever order, the page
      partition is the one right after init and the initial zone is the only zone. */
  lemma NothingLeaks(a: Allocator)
    requires a.Valid() && forall addr :: !Holds(a.zoneAllocator.h, addr)
    ensures |a.states| > 0 && a.pageAllocator.st == a.states[0].pages
    ensures a.zoneAllocator.h.zones.Keys == {INITIAL} && Unused(a.zoneAllocator.h.zones[INITIAL])
    ensures a.zoneAllocator.h.host == map[]
  {
    hide Run, Fresh, ZoneAllocator.Valid, Unused, Holds;
    RunLength(a.states, a.events);
    RunNoLeak(a.states, a.events, |a.events|);
  }

  /** Nothing counts as allocated exactly when the user holds nothing. */
  lemma NothingAllocatedIff(s: Snapshot)
    requires Sound(s)
    ensures AllocatedBytes(s.heap) == 0 <==> forall addr :: !Holds(s.heap, addr)
  {
    hide Tiled, Coalesced, Settled, Geometry, SizeClass, Holds, BlockPages, LiveBytes, Times, AllocatedBytes;
    var h := s.heap;
    BytesMean(h, s.pages);
    TimesAdd(0, 0, h.pageSize);
    if forall addr :: !Holds(h, addr) {
      NothingHeld(h, s.pages);
      NoBlocks(h);
    } else {
      var addr :| Holds(h, addr);
      HeldCounts(s, addr);
    }
  }

  lemma NoBlocks(h: Heap)
    requires h.live == map[] && h.blocks == map[]
    ensures BlockPages(h) == 0 && LiveBytes(h) == 0
  {
    SumEmpty();
    assert Only(h.used, h.blocks.Keys) == map[] && Only(ChunkBytes(h), h.live.Keys) == map[];
  }

  lemma HeldCounts(s: Snapshot, addr: nat)
    requires Sound(s) && Holds(s.heap, addr)
    ensures Times(BlockPages(s.heap), s.heap.pageSize) + LiveBytes(s.heap) > 0
  {
    hide Tiled, Coalesced, Settled, Geometry, SizeClass, Sum, Times, ChunkBytes;
    var h := s.heap;
    if addr in h.live {
      LiveCounts(h, addr);
      SumAtLeast(Only(ChunkBytes(h), h.live.Keys), addr);
    } else {
      var p :| HoldsBlock(h, addr, p);
      UsedCounts(h, s.pages, p);
      SumAtLeast(Only(h.used, h.blocks.Keys), p);
      TimesMono(1, BlockPages(h), h.pageSize);
      TimesAdd(0, 0, h.pageSize);
    }
  }

  lemma LiveCounts(h: Heap, c: nat)
    requires Settled(h) && c in h.live
    ensures c in ChunkBytes(h) && ChunkBytes(h)[c] > 0
  {
    hide Inv, FreeIn;
    LiveChunk(h, c);
    ZoneIsOk(h, h.host[c]);
    ZoneChunkSize(h, h.zones[h.host[c]]);
  }

  lemma ZoneChunkSize(h: Heap, z: Zone)
    requires ZoneOk(h, z)
    ensures z.chunkSize > 0
  {
  }

  lemma UsedCounts(h: Heap, p: Pages, q: nat)
    requires WellFormed(h, p) && q in h.blocks
    ensures q in h.used && h.used[q] > 0 && h.pageSize > 0
  {
    hide Inv, FreeIn, Coalesced;
    BlocksUsed(h);
    assert IsStart(p, q);
    Apart(p, q, q);
  }

  lemma ReportedIntro(h: Heap, p: Pages, total: nat, ps: PageStats, zs: ZoneStats)
    requires h.reserved in h.used && |h.zones| >= 1
    requires ps.totalMemorySize == Truncate(total, UINT)
    requires ps.effectiveMemorySize == Truncate(Times(p.n, h.pageSize), UINT)
    requires ps.userMemorySize == Truncate(ps.effectiveMemorySize - Times(h.used[h.reserved], h.pageSize), WORD)
    requires ps.freeMemorySize == Truncate(Times(Sum(p.free), h.pageSize), WORD)
    requires ps.pageSize == h.pageSize && ps.reservedPagesCount == h.used[h.reserved]
    requires zs.usedMemorySize == Times(|h.zones|, h.pageSize)
    requires zs.reservedMemorySize == Times(|h.zones| - 1, DESC)
    requires zs.freeMemorySize == Truncate(Sum(FreeChunkBytes(h.zones)), UINT)
    requires zs.allocatedMemorySize == Truncate(zs.usedMemorySize - zs.reservedMemorySize - zs.freeMemorySize, WORD)
    ensures Reported(h, p, total, ps, zs)
  {
  }

  lemma StatsReady(za: ZoneAllocator)
    requires za.Valid() && |za.pageAllocator.regionsInfo| <= MAX_REGIONS
    ensures za.pageAllocator.Valid() && Settled(za.h) && Tiled(za.pageAllocator.st)
      && za.pageAllocator.st.used == za.h.used
    ensures za.h.reserved in za.h.used && za.h.used[za.h.reserved] == za.pageAllocator.descPagesCount
    ensures za.h.pageSize == za.pageAllocator.pageSize == za.pageSize && |za.h.addrs| == za.pageAllocator.pagesCount
    ensures Times(za.pageAllocator.st.n, za.h.pageSize) <= MAX_BYTES
    ensures Times(za.pageAllocator.st.n, za.h.pageSize) <= TotalSize(za.pageAllocator.regionsInfo)
  {
    hide Inv, Agree, ChunkLists, Bucketed, Times, Pow2, Consistent, Coalesced;
    za.PagesOfState();
    LayoutTotals(za.pageAllocator.regionsInfo, za.pageSize, za.h.addrs, za.pageAllocator.st);
    SmallNumbers(za.pageAllocator.st.n, |za.pageAllocator.regionsInfo|, za.pageSize);
  }

  lemma ReleaseStep(s: Snapshot, ptr: Ptr, r: Snapshot)
    requires Sound(s) && Sound(r) && r.pages.n == s.pages.n && r.pages.borders == s.pages.borders
    requires ptr.Null? ==> r == s
    requires ptr.At? ==> Holds(s.heap, ptr.addr) && Freed(s.heap, ptr.addr, r.heap)
    ensures Step(s, Released(ptr), r)
  {
    hide Settled, Tiled, Coalesced, Holds, Freed, Geometry, SizeClass;
    match ptr
    case Null =>
    case At(addr) =>
  }

  lemma AllocateStep(s: Snapshot, size: nat, ptr: Ptr, w: Service, r: Snapshot)
    requires Sound(s) && Sound(r) && r.pages.n == s.pages.n && r.pages.borders == s.pages.borders
    requires ptr.Null? <==> CannotServe(s.heap, s.pages, size)
    requires ptr.Null? ==> r == s
    requires ptr.At? ==> Served(s.heap, size, ptr.addr, w, r.heap)
    ensures Step(s, Allocated(size, ptr), r)
  {
    hide Settled, Tiled, Coalesced, CannotServe, Served, Geometry, SizeClass;
    match ptr
    case Null =>
    case At(addr) =>
  }
}
