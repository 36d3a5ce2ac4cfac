/** The zone allocator (ZoneAllocator.hpp, ZoneAllocator.cpp): zone objects, their free lists, the bucket
    table and the page allocator below refine the abstract heap of HeapModel. */
module ZoneAllocation {
  import opened Accounting
  import opened Bits
  import opened HeapModel
  import opened HeapSteps
  import opened ListNode
  import opened PageAllocation
  import opened PagePartition
  import opened Regions
  import opened Requests
  import opened Sums
  import opened ZoneBuckets
  import Z = Zones

  ghost predicate NotAChunk(h: Heap, c: nat)
  {
    forall a | a in h.zones :: c !in h.zones[a].chunks
  }

  /** The zone object at each descriptor address agrees with the abstract zone. */
  ghost predicate Agree(objects: map<nat, Z.Zone>, zs: map<nat, Zone>)
    reads set a | a in objects :: objects[a]
  {
    && objects.Keys == zs.Keys
    && forall a | a in objects :: objects[a].self == a && objects[a].Fields(zs[a])
  }

  lemma AgreeSplit(objects: map<nat, Z.Zone>, zs: map<nat, Zone>, a: nat)
    requires Agree(objects, zs) && a in zs
    ensures Agree(objects - {a}, zs - {a})
    ensures a in objects && objects[a].self == a && objects[a].Fields(zs[a])
    ensures forall b | b in objects - {a} :: objects[b] != objects[a]
  {
  }

  lemma AgreeJoin(objects: map<nat, Z.Zone>, zs: map<nat, Zone>, a: nat, z: Zone)
    requires Agree(objects - {a}, zs - {a})
    requires a in objects && objects[a].self == a && objects[a].Fields(z)
    ensures Agree(objects, zs[a := z])
  {
    forall b ensures b in objects <==> b in zs[a := z] {
      assert b in objects - {a} <==> b in zs - {a};
    }
    forall b | b in objects ensures objects[b].self == b && objects[b].Fields(zs[a := z][b]) {
      if b != a { assert b in objects - {a}; }
    }
  }

  /** Zone::init was run on the page p: all its chunks are free, and no other chunk was touched. */
  ghost predicate Initialized(zone: Z.Zone, p: nat, address: nat, chunkSize: nat, pageSize: nat,
                              nodes: map<nat, Node>, nodes': map<nat, Node>)
    requires chunkSize > 0
    reads zone
  {
    var s := Carved(address, chunkSize, ChunkCount(pageSize, chunkSize));
    && zone.page == At(p) && zone.chunkSize == chunkSize
    && zone.chunksCount == zone.freeChunksCount == ChunkCount(pageSize, chunkSize)
    && zone.freeChunks == Head(s) && Linked(nodes', s)
    && forall q | q in nodes && q !in s :: q in nodes' && nodes'[q] == nodes[q]
  }

  /** A new descriptor zone heads its bucket, so the next descriptor chunk comes from it. */
  lemma NestedZone(h: Heap, t: ZoneTrace, m: Heap, d: nat, lists: seq<seq<nat>>)
    requires Settled(h) && SizeClass(DESC, h.pageSize) && Obtained(h, DESC, t, m, d)
    requires HeadOfBucket(lists, DESC, d) && |lists| > DESC_IDX && forall a | a in lists[DESC_IDX] :: a in m.zones
    ensures FirstWithFree(m.zones, lists[DESC_IDX]) == At(d) && Expecting(m, d) && m.zones[d].chunkSize == DESC
    ensures m == WithZone(h, t.first, t.page1, DESC) && CanHost(h, t.first, t.page1) && d == h.zones[t.first].free[0]
  {
    hide Inv, FreeIn, Pending, WithZone, CanHost, ZoneIdx;
    DescriptorClass();
    NewZoneExpected(h, t.first, t.page1, DESC);
  }

  lemma HeldAddress(h: Heap, addr: nat)
    requires Settled(h) && Holds(h, addr)
    ensures addr < Pow2(WORD) && Inv(h) && Pending(h) == {}
    ensures addr !in h.live ==> NotAChunk(h, addr) && exists p :: HoldsBlock(h, addr, p)
  {
    hide Inv, Pow2;
    if addr in h.live {
      LiveChunk(h, addr);
      ChunkAddress(h, addr);
    } else {
      var p :| HoldsBlock(h, addr, p);
      InitialZone(h);
      forall a | a in h.zones ensures addr !in h.zones[a].chunks {
        BlockIsNoChunk(h, addr, p, a);
      }
      BlockIsNoChunk(h, addr, p, INITIAL);
    }
  }

  lemma InitialZone(h: Heap)
    requires Inv(h)
    ensures INITIAL in h.zones
  {
  }

  lemma HeldPage(h: Heap, addr: nat, p: nat)
    requires Settled(h) && HoldsBlock(h, addr, p)
    ensures h.pageSize > 0 && h.addrs[p] == addr && p in h.used && p != h.reserved
  {
  }

  /** An address inside a page determines the page. */
  lemma UniquePage(h: Heap, addr: nat, p: nat)
    requires Settled(h) && HoldsBlock(h, addr, p)
    ensures forall q | 0 <= q < |h.addrs| :: h.addrs[q] <= addr < h.addrs[q] + h.pageSize <==> q == p
  {
  }

  lemma DescriptorFits(pa: PageAllocator)
    requires pa.Valid() && MINIMAL_PAGE_SIZE <= pa.pageSize
    ensures SizeClass(DESC, pa.pageSize) && PagesApart(pa.pageSize, pa.addrs) && SIZEOF_ZONE < Pow2(WORD)
  {
    DescriptorClass();
    WordBounds();
    GeometryHolds(pa.regionsInfo, pa.pageSize, pa.addrs);
  }

  lemma SingleObject(zone: Z.Zone, z: Zone)
    requires zone.self == INITIAL && zone.Fields(z)
    ensures Agree(map[INITIAL := zone], map[][INITIAL := z])
  {
  }

  lemma SingleChunkList(z: Zone, nodes: map<nat, Node>)
    requires Linked(nodes, z.free)
    ensures ChunkLists(map[][INITIAL := z], nodes)
  {
  }

  lemma PositiveChunk(h: Heap, a: nat)
    requires Inv(h) && a in h.zones && h.zones[a].free != []
    ensures h.zones[a].free[0] > 0
  {
    hide Inv;
    FreshChunk(h, a, h.zones[a].free[0]);
  }

  /** The zone that serves a request: a new one, or the first of its bucket with a free chunk. */
  lemma ServingZone(h: Heap, cs: nat, t: ZoneTrace, m: Heap, a: nat, s: seq<nat>)
    requires Settled(h) && SizeClass(cs, h.pageSize) && SizeClass(DESC, h.pageSize)
    requires Exhausted(h, cs) ==> Obtained(h, cs, t, m, a)
    requires !Exhausted(h, cs) ==> m == h && forall b | b in s :: b in h.zones && h.zones[b].chunkSize == cs
    requires !Exhausted(h, cs) ==> FirstWithFree(h.zones, s) == At(a)
    ensures a in m.zones && m.zones[a].free != [] && m.zones[a].chunkSize == cs
  {
    hide Settled, Obtained, Exhausted, SizeClass;
    if Exhausted(h, cs) {
      ObtainedExpecting(h, cs, t, m, a);
    } else {
      FirstWithFreeFacts(h.zones, s);
    }
  }

  lemma FirstFreeFacts(h: Heap, s: seq<nat>, a: nat)
    requires forall b | b in s :: b in h.zones && h.zones[b].chunkSize == DESC
    requires FirstWithFree(h.zones, s) == At(a)
    ensures a in h.zones && h.zones[a].free != [] && h.zones[a].chunkSize == DESC
  {
    FirstWithFreeFacts(h.zones, s);
  }

  /** What allocateZone does to the heap, the number of free pages and the page partition. */
  ghost predicate Outcome(h: Heap, free: nat, p: Pages, chunkSize: nat, t: ZoneTrace, r: Ptr, g: Heap, rest: nat,
      q: Pages)
  {
    && (r.Null? <==> free < PagesNeeded(h, chunkSize))
    && (r.Null? ==> g == h && q == p)
    && (r.At? ==> Obtained(h, chunkSize, t, g, r.addr) && rest == free - PagesNeeded(h, chunkSize))
  }

  /** The same for its first step. */
  ghost predicate DescriptorOutcome(h: Heap, free: nat, p: Pages, chunkSize: nat, t: ZoneTrace, ok: bool,
                                    g: Heap, rest: nat, q: Pages)
  {
    && (!ok <==> NeedsDescriptors(h, chunkSize) && free == 0)
    && (!ok || !NeedsDescriptors(h, chunkSize) ==> g == h && q == p)
    && (!NeedsDescriptors(h, chunkSize) ==> rest == free)
    && (ok && NeedsDescriptors(h, chunkSize) ==>
         && CanHost(h, t.first, t.page1) && g == WithZone(h, t.first, t.page1, DESC) && rest == free - 1)
  }

  /** The zone that the next descriptor chunk comes from. */
  ghost predicate NextDescriptor(h: Heap, chunkSize: nat, t: ZoneTrace, g: Heap, lists: seq<seq<nat>>)
  {
    && |lists| > DESC_IDX && (forall a | a in lists[DESC_IDX] :: a in g.zones && g.zones[a].chunkSize == DESC)
    && FirstWithFree(g.zones, lists[DESC_IDX]).At?
    && (NeedsDescriptors(h, chunkSize) ==>
         CanHost(h, t.first, t.page1) && FirstWithFree(g.zones, lists[DESC_IDX]) == At(h.zones[t.first].free[0]))
  }

  lemma DescriptorFound(h: Heap, chunkSize: nat, t: ZoneTrace, g: Heap, lists: seq<seq<nat>>)
    requires NextDescriptor(h, chunkSize, t, g, lists)
    ensures |lists| > DESC_IDX && forall a | a in lists[DESC_IDX] :: a in g.zones
    ensures var r := FirstWithFree(g.zones, lists[DESC_IDX]);
      && r.At? && r.addr in g.zones && g.zones[r.addr].free != [] && g.zones[r.addr].chunkSize == DESC
      && (NeedsDescriptors(h, chunkSize) ==> CanHost(h, t.first, t.page1) && r == At(h.zones[t.first].free[0]))
  {
    hide CanHost, NeedsDescriptors;
    FirstFreeFacts(g, lists[DESC_IDX], FirstWithFree(g.zones, lists[DESC_IDX]).addr);
  }

  lemma RollBack(h: Heap, chunkSize: nat, t: ZoneTrace, m: Heap, a: nat, r: Heap)
    requires Settled(h) && SizeClass(DESC, h.pageSize) && RolledBack(m, a, r)
    requires NeedsDescriptors(h, chunkSize) ==>
      CanHost(h, t.first, t.page1) && m == WithZone(h, t.first, t.page1, DESC) && a == h.zones[t.first].free[0]
    requires !NeedsDescriptors(h, chunkSize) ==> m == h
    ensures r == h
  {
    hide Inv, AllBusy, Settled, SizeClass, WithZone, CanHost, RolledBack, NeedsDescriptors;
    SettledReserve(h);
    if NeedsDescriptors(h, chunkSize) {
      NestedUndone(h, t, m, r);
    } else {
      SimplyUndone(h, a, r);
    }
  }

  datatype ZoneStats = ZoneStats(usedMemorySize: nat, reservedMemorySize: nat, freeMemorySize: nat,
      allocatedMemorySize: nat)

  class ZoneAllocator {
    var pageAllocator: PageAllocator
    var pageSize: nat
    var zoneDescChunkSize: nat
    var zoneDescIdx: nat
    /** The zone object that lives at each descriptor address. */
    var objects: map<nat, Z.Zone>
    var zoneNodes: ListNodes
    var chunkNodes: ListNodes
    var zones: seq<ZoneInfo>

    ghost var h: Heap
    ghost var lists: seq<seq<nat>>

    constructor (pageAllocator: PageAllocator)
      ensures this.pageAllocator == pageAllocator && fresh(zoneNodes) && fresh(chunkNodes) && zoneNodes != chunkNodes
      ensures objects == map[]
    {
      this.pageAllocator := pageAllocator;
      pageSize, zoneDescChunkSize, zoneDescIdx := 0, 0, 0;
      objects := map[];
      zoneNodes := new ListNodes();
      chunkNodes := new ListNodes();
      zones := EmptyTable();
    }

    ghost function Objs(): set<object>
      reads this`objects
    {
      set a | a in objects :: objects[a]
    }

    ghost function Footprint(): set<object>
      reads this, pageAllocator
    {
      {this, zoneNodes, chunkNodes, pageAllocator, pageAllocator.pages, pageAllocator.links} + Objs()
    }

    /** The page allocator below is intact and its used groups are `used`. */
    ghost predicate Linkage(used: map<nat, nat>)
      reads this, pageAllocator, pageAllocator.pages, pageAllocator.links
    {
      && pageAllocator.Valid()
      && used == pageAllocator.st.used && h.addrs == pageAllocator.addrs
      && h.pageSize == pageSize == pageAllocator.pageSize <= MAX_PAGE_SIZE
      && pageAllocator.descRegionIdx < |pageAllocator.regionsInfo|
      && h.reserved == pageAllocator.regionsInfo[pageAllocator.descRegionIdx].firstPage
      && zoneDescChunkSize == DESC && zoneDescIdx == DESC_IDX && SizeClass(DESC, pageSize)
    }

    /** All concrete state agrees with the abstract heap; the bucket table covers the zones `indexed`
        and the page allocator has handed out the groups `used`. */
    ghost predicate State(indexed: map<nat, Zone>, used: map<nat, nat>)
      reads Footprint()
    {
      && zoneNodes != chunkNodes && pageAllocator.links != zoneNodes && pageAllocator.links != chunkNodes
      && Linkage(used)
      && Inv(h)
      && Agree(objects, h.zones)
      && ChunkLists(h.zones, chunkNodes.nodes)
      && Bucketed(indexed, zones, lists, zoneNodes.nodes)
    }

    lemma ZoneObject(a: nat)
      requires State(h.zones, h.used) && a in h.zones
      ensures a in objects && objects[a] in Objs() && objects[a].self == a
        && objects[a].Agrees(h.zones[a], chunkNodes.nodes)
      ensures SizeClass(h.zones[a].chunkSize, pageSize) && h.zones[a].chunkSize >= MINIMAL_ALLOC
      ensures ZoneIdx(h.zones[a].chunkSize) < MAX_ZONE_IDX == |zones| == |lists|
      ensures BucketSize(ZoneIdx(h.zones[a].chunkSize)) == h.zones[a].chunkSize
      ensures zones[ZoneIdx(h.zones[a].chunkSize)].freeChunksCount
        == FreeIn(h.zones, h.zones[a].chunkSize) >= |h.zones[a].free|
    {
      hide Bucketed, SizeClass;
      assert ZoneOk(h, h.zones[a]);
      BucketOf(h.zones[a].chunkSize, pageSize);
      BucketEntry(h.zones, zones, lists, zoneNodes.nodes, ZoneIdx(h.zones[a].chunkSize));
      FreeInUpdate(h.zones, a, h.zones[a], h.zones[a].chunkSize);
    }

    /** allocateChunk: the head of the zone's free list. */
    method AllocateChunk(a: nat) returns (chunk: nat)
      requires State(h.zones, h.used) && a in h.zones && h.zones[a].free != []
      modifies this`zones, this`h, chunkNodes, objects[a]
      ensures State(h.zones, h.used) && h == Take(old(h), a) && chunk == old(h).zones[a].free[0]
    {
      hide Inv, Bucketed, ChunkLists, SizeClass, PageAllocator.Valid, FreeIn, Linked, ZoneIdx, BucketSize, Agree;
      ZoneObject(a);
      AgreeSplit(objects, h.zones, a);
      ghost var z := h.zones[a];
      var zone := objects[a];
      var idx := ZoneIdx(zone.chunkSize);
      ghost var nodes := chunkNodes.nodes;
      ghost var z' := z.(free := z.free[1..]);
      BucketUpdate(h.zones, zones, lists, zoneNodes.nodes, a, z', idx, zones[idx].freeChunksCount - 1);
      TakeKeeps(h, a);
      zones := zones[idx := zones[idx].(freeChunksCount := zones[idx].freeChunksCount - 1)];
      chunk := zone.TakeChunk(chunkNodes, z);
      AgreeJoin(objects, h.zones, a, z');
      h := Take(h, a);
      TakeListsKept(old(h), a, nodes, chunkNodes.nodes);
    }

    /** getFreeZone: the first zone of the bucket that has a free chunk. */
    method GetFreeZone(idx: nat) returns (r: Ptr)
      requires State(h.zones, h.used) && idx < MAX_ZONE_IDX && idx < |lists|
      ensures forall a | a in lists[idx] :: a in h.zones
      ensures r == FirstWithFree(h.zones, lists[idx]) && State(h.zones, h.used)
    {
      hide Inv, Bucketed, ChunkLists, SizeClass, PageAllocator.Valid, FreeIn, Linked, ZoneIdx, BucketSize;
      BucketEntry(h.zones, zones, lists, zoneNodes.nodes, idx);
      var zone := zones[idx].head;
      ghost var j: nat := 0;
      ghost var list := lists[idx];
      while zone.At?
        invariant j <= |list| && zone == if j < |list| then At(list[j]) else Null
        invariant FirstWithFree(h.zones, list) == FirstWithFree(h.zones, list[j..])
        decreases |list| - j
      {
        NextInList(zoneNodes.nodes, list, j);
        ZoneObject(zone.addr);
        assert list[j..][0] == list[j] && list[j..][1..] == list[j + 1..];
        if objects[zone.addr].freeChunksCount > 0 {
          break;
        }
        zone := zoneNodes.nodes[zone.addr].next;
        j := j + 1;
      }
      return zone;
    }

    /** shouldAllocateZone: one descriptor chunk is kept in reserve. */
    predicate ShouldAllocateZone(idx: nat)
      requires idx < |zones|
      reads this
    {
      zones[idx].freeChunksCount == if idx == zoneDescIdx then 1 else 0
    }

    /** findZone: the zone the chunk address belongs to. */
    method FindZone(chunk: nat) returns (r: Ptr)
      requires State(h.zones, h.used) && chunk < Pow2(WORD)
      ensures r.At? ==> r.addr in h.zones && chunk in h.zones[r.addr].chunks
      ensures r.Null? ==> NotAChunk(h, chunk)
    {
      hide Inv, Bucketed, ChunkLists, SizeClass, PageAllocator.Valid, FreeIn, Linked, ZoneIdx, BucketSize, PageFloor,
           Pow2, NotAChunk, Agree;
      PageSizeFacts();
      var pageAddr := PageFloor(chunk, pageSize);
      var i := 0;
      while i < |zones|
        invariant i <= |zones|
        invariant forall b | b in h.zones && chunk in h.zones[b].chunks :: !BucketBelow(lists, i, b)
      {
        BucketsComplete(i);
        var zone := zones[i].head;
        ghost var j: nat := 0;
        ghost var list := lists[i];
        while zone.At?
          invariant j <= |list| && zone == if j < |list| then At(list[j]) else Null
          invariant forall k: nat | k < j :: list[k] in h.zones && chunk !in h.zones[list[k]].chunks
          decreases |list| - j
        {
          NextInList(zoneNodes.nodes, list, j);
          ZoneObject(zone.addr);
          var z := objects[zone.addr];
          ZonePage(zone.addr, chunk);
          var address := pageAllocator.pages[z.page.addr].addr;
          if address == pageAddr {
            var valid := z.IsValidChunk(address, chunk);
            if valid {
              return zone;
            }
          }
          zone := zoneNodes.nodes[zone.addr].next;
          j := j + 1;
        }
        NextBucketBelow(lists, i, h.zones, chunk);
        i := i + 1;
      }
      NoZoneMissed(chunk);
      return Null;
    }

    /** First half of deallocateChunk: the chunk goes back to the free list of its zone. */
    method GiveBack(chunk: nat, a: nat)
      requires State(h.zones, h.used) && chunk in Pending(h) && a == h.host[chunk] && a in h.zones
      modifies this`zones, this`h, chunkNodes, objects[a]
      ensures State(h.zones, h.used) && h == Give(old(h), chunk)
    {
      hide Inv, Bucketed, ChunkLists, SizeClass, PageAllocator.Valid, FreeIn, Linked, ZoneIdx, BucketSize, Pending,
           Agree;
      ZoneObject(a);
      AgreeSplit(objects, h.zones, a);
      PendingNotFree(h, chunk);
      ghost var z := h.zones[a];
      var zone := objects[a];
      var idx := ZoneIdx(zone.chunkSize);
      ghost var nodes := chunkNodes.nodes;
      ghost var z' := z.(free := [chunk] + z.free);
      BucketUpdate(h.zones, zones, lists, zoneNodes.nodes, a, z', idx, zones[idx].freeChunksCount + 1);
      GiveKeeps(h, chunk);
      zones := zones[idx := zones[idx].(freeChunksCount := zones[idx].freeChunksCount + 1)];
      chunkNodes.InitListNode(chunk);
      LinkedFrame(nodes, chunkNodes.nodes, z.free);
      zone.GiveChunk(chunk, chunkNodes, z);
      GiveListsKept(h, chunk, nodes, chunkNodes.nodes);
      AgreeJoin(objects, h.zones, a, z');
      h := Give(h, chunk);
    }

    /** removeZone. */
    method RemoveZone(a: nat)
      requires State(h.zones, h.used) && a in h.zones && a != INITIAL
      modifies this`zones, this`lists, zoneNodes
      ensures State(h.zones - {a}, h.used)
    {
      hide Inv, Bucketed, ChunkLists, SizeClass, PageAllocator.Valid, FreeIn, Linked, ZoneIdx, BucketSize, Without,
           Agree;
      ZoneObject(a);
      var zone := objects[a];
      var idx := ZoneIdx(zone.chunkSize);
      BucketEntry(h.zones, zones, lists, zoneNodes.nodes, idx);
      ghost var nodes := zoneNodes.nodes;
      var head := zoneNodes.RemoveFromList(a, zones[idx].head, lists[idx]);
      BucketRemove(h.zones, zones, lists, nodes, zoneNodes.nodes, a, idx);
      zones := zones[idx := ZoneInfo(head, zones[idx].freeChunksCount - zone.freeChunksCount)];
      lists := lists[idx := Without(lists[idx], a)];
    }

    /** clearZone: the page is returned and the zone object ceases to exist. */
    method ClearZone(a: nat)
      requires State(h.zones - {a}, h.used) && a in h.zones && a != INITIAL && Unused(h.zones[a])
      modifies this`h, this`objects, zoneNodes, objects[a], pageAllocator`freeGroupLists, pageAllocator`freePagesCount,
               pageAllocator`st, pageAllocator`lists, pageAllocator.pages, pageAllocator.links
      ensures State(h.zones, h.used) && h == Death(old(h), a) && objects == old(objects) - {a}
    {
      hide State, Unused;
      ReturnPage(a);
      DropZone(a);
    }

    /** m_pageAllocator->release(zone->page()). */
    method ReturnPage(a: nat)
      requires State(h.zones - {a}, h.used) && a in h.zones && a != INITIAL && Unused(h.zones[a])
      modifies pageAllocator`freeGroupLists, pageAllocator`freePagesCount, pageAllocator`st, pageAllocator`lists,
               pageAllocator.pages, pageAllocator.links
      ensures State(h.zones - {a}, h.used - {h.zones[a].page})
    {
      hide Inv, Bucketed, ChunkLists, SizeClass, PageAllocator.Valid, FreeIn, Linked, Unused, Agree;
      DeathKeeps(h, a);
      AgreeSplit(objects, h.zones, a);
      pageAllocator.Release(objects[a].page);
    }

    /** zone->clear(): the descriptor memory is no zone any more. */
    method DropZone(a: nat)
      requires a in h.zones && a != INITIAL && Unused(h.zones[a]) && State(h.zones - {a}, h.used - {h.zones[a].page})
      modifies this`h, this`objects, zoneNodes, objects[a]
      ensures State(h.zones, h.used) && h == Death(old(h), a) && objects == old(objects) - {a}
    {
      hide Inv, Bucketed, ChunkLists, SizeClass, PageAllocator.Valid, FreeIn, Linked, Unused, Agree;
      DeathKeeps(h, a);
      AgreeSplit(objects, h.zones, a);
      FewerChunkLists(h.zones, chunkNodes.nodes, a);
      ghost var nodes := zoneNodes.nodes;
      objects[a].Clear(zoneNodes);
      BucketsIgnore(h.zones - {a}, zones, lists, nodes, zoneNodes.nodes, a);
      objects := objects - {a};
      h := Death(h, a);
    }

    /** initZone: a page for the zone, carved into chunks. */
    method InitZone(zone: Z.Zone, chunkSize: nat) returns (ok: bool, ghost p: nat)
      requires pageAllocator.Valid() && pageAllocator.pageSize == pageSize && chunkSize > 0
      requires zoneNodes != chunkNodes && pageAllocator.links != zoneNodes && pageAllocator.links != chunkNodes
      modifies zone, zoneNodes, chunkNodes, pageAllocator`freeGroupLists, pageAllocator`freePagesCount,
        pageAllocator`st,
               pageAllocator`lists, pageAllocator.pages, pageAllocator.links
      ensures pageAllocator.Valid() && pageAllocator.st.n == old(pageAllocator.st).n
      ensures ok <==> old(pageAllocator.freePagesCount) > 0
      ensures !ok ==>
        && pageAllocator.st == old(pageAllocator.st)
           && pageAllocator.freePagesCount == old(pageAllocator.freePagesCount)
        && zoneNodes.nodes == old(zoneNodes.nodes) && chunkNodes.nodes == old(chunkNodes.nodes)
      ensures ok ==>
        && p < |pageAllocator.addrs| && p !in old(pageAllocator.st).used
        && pageAllocator.st.used == old(pageAllocator.st).used[p := 1]
        && pageAllocator.freePagesCount == old(pageAllocator.freePagesCount) - 1
        && Initialized(zone, p, pageAllocator.addrs[p], chunkSize, pageSize, old(chunkNodes.nodes), chunkNodes.nodes)
        && zoneNodes.nodes == old(zoneNodes.nodes)[zone.self := UNLINKED]
    {
      hide PageAllocator.Valid, Linked, Carved, FirstFit, AllocateAt;
      ghost var st := pageAllocator.st;
      FreePageFacts(pageAllocator);
      var page := pageAllocator.Allocate(1);
      if page.At? {
        AllocatedGroup(pageAllocator, st, page.addr, 1);
        zone.Init(page.addr, pageAllocator.pages[page.addr].addr, pageSize, chunkSize, zoneNodes, chunkNodes);
        return true, page.addr;
      }
      return false, 0;
    }

    /** addZone: the zone becomes the head of its bucket. */
    method AddZone(zone: Z.Zone, ghost zs: map<nat, Zone>, ghost z: Zone)
      requires Bucketed(zs, zones, lists, zoneNodes.nodes) && zone.self !in zs && zone.Fields(z)
      requires SizeClass(z.chunkSize, pageSize) && pageSize <= MAX_PAGE_SIZE
      requires zone.self in zoneNodes.nodes && zoneNodes.nodes[zone.self] == UNLINKED
      modifies this`zones, this`lists, zoneNodes
      ensures Bucketed(zs[zone.self := z], zones, lists, zoneNodes.nodes)
      ensures z.chunkSize >= MINIMAL_ALLOC && ZoneIdx(z.chunkSize) < |old(lists)|
      ensures lists == old(lists)[ZoneIdx(z.chunkSize) := [zone.self] + old(lists)[ZoneIdx(z.chunkSize)]]
    {
      hide Bucketed, SizeClass, FreeIn, Linked, ZoneIdx, BucketSize;
      BucketOf(z.chunkSize, pageSize);
      var idx := ZoneIdx(zone.chunkSize);
      BucketEntry(zs, zones, lists, zoneNodes.nodes, idx);
      ghost var nodes := zoneNodes.nodes;
      var head := zoneNodes.AddToList(zone.self, zones[idx].head, lists[idx]);
      BucketInsert(zs, zones, lists, nodes, zoneNodes.nodes, zone.self, z, idx);
      zones := zones[idx := ZoneInfo(head, zones[idx].freeChunksCount + zone.freeChunksCount)];
      lists := lists[idx := [zone.self] + lists[idx]];
    }

    /** deallocateChunk: gives the chunk back; a zone that becomes unused is removed, and its descriptor
        chunk deallocated in turn. Returns false only for an address that is no chunk. */
    method DeallocateChunk(chunk: nat) returns (found: bool)
      requires State(h.zones, h.used) && chunk < Pow2(WORD) && (chunk in Pending(h) || NotAChunk(h, chunk))
      modifies this`zones, this`lists, this`h, this`objects, zoneNodes, chunkNodes, Objs(),
               pageAllocator`freeGroupLists, pageAllocator`freePagesCount, pageAllocator`st, pageAllocator`lists,
               pageAllocator.pages, pageAllocator.links
      ensures State(h.zones, h.used) && Inv(old(h))
      ensures found <==> chunk in Pending(old(h))
      ensures found ==> h == Dealloc(old(h), chunk)
      ensures !found ==> h == old(h) && pageAllocator.st == old(pageAllocator.st)
      ensures Objs() <= old(Objs())
      decreases |h.zones|
    {
      hide Inv, Bucketed, ChunkLists, SizeClass, PageAllocator.Valid, FreeIn, Linked, ZoneIdx, BucketSize, Pending,
           Agree, Unused, Pow2, NotAChunk, Linkage;
      ZonesOutside();
      var found1 := FindZone(chunk);
      if found1.Null? {
        NoZoneNoPending(h, chunk);
        return false;
      }
      var a := found1.addr;
      FoundHost(h, chunk, a);
      ZoneObject(a);
      var zone := objects[a];
      GiveKeeps(h, chunk);
      GiveBack(chunk, a);
      ZoneObject(a);
      ZoneUnused(a);
      if zone.chunksCount == zone.freeChunksCount && a != INITIAL {
        DeathKeeps(h, a);
        DeathShrinks(h, a);
        ZoneAddress(h, a);
        RemoveZone(a);
        ClearZone(a);
        found := DeallocateChunk(a);
        return found;
      }
      return true;
    }

    /** The second part of allocateZone: a descriptor chunk of the zone at a, a page, and the new zone; the
        chunk is deallocated again if there is no page. */
    method NewZone(a: nat, chunkSize: nat) returns (r: Ptr, ghost p: nat)
      requires State(h.zones, h.used) && a in h.zones && h.zones[a].free != [] && h.zones[a].chunkSize == DESC
      requires SizeClass(chunkSize, pageSize)
      modifies this`zones, this`lists, this`h, this`objects, zoneNodes, chunkNodes, Objs(),
               pageAllocator`freeGroupLists, pageAllocator`freePagesCount, pageAllocator`st, pageAllocator`lists,
               pageAllocator.pages, pageAllocator.links
      ensures State(h.zones, h.used)
      ensures r == if old(pageAllocator.freePagesCount) > 0 then At(old(h.zones[a].free[0])) else Null
      ensures r.At? ==> Grown(old(h), a, p, chunkSize, h) && HeadOfBucket(lists, chunkSize, r.addr)
                        && pageAllocator.freePagesCount == old(pageAllocator.freePagesCount) - 1
      ensures r.Null? ==> RolledBack(old(h), a, h)
      ensures fresh(Objs() - old(Objs()))
    {
      hide Inv, SizeClass, FreeIn, ZoneIdx, BucketSize, Pending, Agree, Pow2, Take, Birth, State, Grown, RolledBack,
           HeadOfBucket, Dealloc, Linkage;
      ZonesOutside();
      ghost var h0 := h;
      StateOpen(h.zones);
      ChunkSizePositive(chunkSize, pageSize);
      ZoneObject(a);
      TakenFacts(h, a);
      var newZone := AllocateChunk(a);
      r, p := BuildZone(newZone, chunkSize);
      if r.At? {
        GrownIntro(h0, a, p, chunkSize, h);
      } else {
        RolledBackIntro(h0, a, h);
      }
    }

    /** The rest of allocateZone: the chunk becomes a zone with a page of its own, or is deallocated. */
    method BuildZone(newZone: nat, chunkSize: nat) returns (r: Ptr, ghost p: nat)
      requires State(h.zones, h.used) && newZone in Pending(h) && newZone < Pow2(WORD)
      requires h.host[newZone] in h.zones && h.zones[h.host[newZone]].chunkSize == DESC
      requires SizeClass(chunkSize, pageSize) && chunkSize >= MINIMAL_ALLOC
      modifies this`zones, this`lists, this`h, this`objects, zoneNodes, chunkNodes, Objs(),
               pageAllocator`freeGroupLists, pageAllocator`freePagesCount, pageAllocator`st, pageAllocator`lists,
               pageAllocator.pages, pageAllocator.links
      ensures State(h.zones, h.used) && Inv(old(h))
      ensures r == if old(pageAllocator.freePagesCount) > 0 then At(newZone) else Null
      ensures r.At? ==>
        && p < |old(h).addrs| && p !in old(h).used && h == Birth(old(h), newZone, p, chunkSize)
        && HeadOfBucket(lists, chunkSize, r.addr)
        && pageAllocator.freePagesCount == old(pageAllocator.freePagesCount) - 1
      ensures r.Null? ==> h == Dealloc(old(h), newZone)
      ensures fresh(Objs() - old(Objs()))
    {
      hide Inv, Bucketed, ChunkLists, SizeClass, PageAllocator.Valid, FreeIn, Linked, ZoneIdx, BucketSize, Pending,
           Agree, Unused, Pow2, Carved, ChunkSet, Birth, State, HeadOfBucket, Initialized, Dealloc, Objs;
      StateOpen(h.zones);
      var zone := new Z.Zone(newZone);
      ghost var nodes, znodes := chunkNodes.nodes, zoneNodes.nodes;
      var ok;
      ok, p := InitZone(zone, chunkSize);
      if !ok {
        StateClose(h.zones);
        var found := DeallocateChunk(newZone);
        return Null, 0;
      }
      AdoptZone(zone, chunkSize, p, nodes, znodes);
      return At(newZone), p;
    }

    /** allocateZone: a new zone with chunks of the given size. If only one descriptor chunk is left, a new
        descriptor zone is obtained first; this recursion is one level deep. The call fails exactly when
        there are too few free pages, and then leaves the heap and the pages as they were. */
    method AllocateZone(chunkSize: nat) returns (r: Ptr, ghost t: ZoneTrace)
      requires State(h.zones, h.used) && Settled(h) && SizeClass(chunkSize, pageSize)
      modifies this`zones, this`lists, this`h, this`objects, zoneNodes, chunkNodes, Objs(),
               pageAllocator`freeGroupLists, pageAllocator`freePagesCount, pageAllocator`st, pageAllocator`lists,
               pageAllocator.pages, pageAllocator.links
      ensures State(h.zones, h.used)
      ensures r.Null? <==> old(pageAllocator.freePagesCount) < PagesNeeded(old(h), chunkSize)
      ensures r.Null? ==> h == old(h) && pageAllocator.st == old(pageAllocator.st)
      ensures r.At? ==> Obtained(old(h), chunkSize, t, h, r.addr) && HeadOfBucket(lists, chunkSize, r.addr)
                        && pageAllocator.freePagesCount
                           == old(pageAllocator.freePagesCount) - PagesNeeded(old(h), chunkSize)
      ensures ZoneResult(old(h), old(pageAllocator.freePagesCount), chunkSize, r, h)
      ensures fresh(Objs() - old(Objs()))
      decreases if chunkSize == DESC then 0 else 1, 2
    {
      hide State, Settled, SizeClass, Obtained, PagesNeeded, ZoneResult, HeadOfBucket;
      ghost var h0, free0 := h, pageAllocator.freePagesCount;
      DescriptorBucket();
      r, t := ObtainZone(chunkSize);
      ZoneResultKept(h0, free0, chunkSize, t, r, h);
    }

    /** The first step of allocateZone: a new descriptor zone, if only the reserved descriptor chunk is left. */
    method ObtainDescriptors(chunkSize: nat) returns (ok: bool, ghost t: ZoneTrace)
      requires State(h.zones, h.used) && Settled(h) && SizeClass(chunkSize, pageSize)
      modifies this`zones, this`lists, this`h, this`objects, zoneNodes, chunkNodes, Objs(),
               pageAllocator`freeGroupLists, pageAllocator`freePagesCount, pageAllocator`st, pageAllocator`lists,
               pageAllocator.pages, pageAllocator.links
      ensures State(h.zones, h.used)
      ensures DescriptorOutcome(old(h), old(pageAllocator.freePagesCount), old(pageAllocator.st), chunkSize, t, ok,
                                h, pageAllocator.freePagesCount, pageAllocator.st)
      ensures ok ==> NextDescriptor(old(h), chunkSize, t, h, lists)
      ensures fresh(Objs() - old(Objs()))
      decreases if chunkSize == DESC then 0 else 1, 0
    {
      hide Inv, SizeClass, FreeIn, ZoneIdx, Pow2, State, HeadOfBucket, FirstWithFree, Settled, WithZone, Expecting,
           Obtained, CanHost;
      ghost var h0 := h;
      t := ZoneTrace(0, 0, 0);
      DescriptorBucket();
      SettledReserve(h);
      if chunkSize != zoneDescChunkSize && ShouldAllocateZone(zoneDescIdx) {
        var d;
        d, t := AllocateZone(zoneDescChunkSize);
        if d.Null? {
          return false, t;
        }
        DescriptorBucket();
        NestedZone(h0, t, h, d.addr, lists);
      }
      return true, t;
    }

    /** The steps of allocateZone. */
    method ObtainZone(chunkSize: nat) returns (r: Ptr, ghost t: ZoneTrace)
      requires State(h.zones, h.used) && Settled(h) && SizeClass(chunkSize, pageSize)
      modifies this`zones, this`lists, this`h, this`objects, zoneNodes, chunkNodes, Objs(),
               pageAllocator`freeGroupLists, pageAllocator`freePagesCount, pageAllocator`st, pageAllocator`lists,
               pageAllocator.pages, pageAllocator.links
      ensures State(h.zones, h.used)
      ensures Outcome(old(h), old(pageAllocator.freePagesCount), old(pageAllocator.st), chunkSize, t, r,
                      h, pageAllocator.freePagesCount, pageAllocator.st)
      ensures r.At? ==> HeadOfBucket(lists, chunkSize, r.addr)
      ensures fresh(Objs() - old(Objs()))
      decreases if chunkSize == DESC then 0 else 1, 1
    {
      hide Inv, SizeClass, FreeIn, ZoneIdx, State, HeadOfBucket, FirstWithFree, Grown, RolledBack, Settled, WithZone,
           Obtained, Borders, Tiled, Coalesced, CanHost, NextDescriptor;
      ghost var h0, st0 := h, pageAllocator.st;
      ZonesOutside();
      PagesOfState();
      DescriptorBucket();
      var ok;
      ok, t := ObtainDescriptors(chunkSize);
      if !ok {
        return Null, t;
      }
      ZonesOutside();
      DescriptorBucket();
      DescriptorFound(h0, chunkSize, t, h, lists);
      var zone := GetFreeZone(zoneDescIdx);
      assert zone.At?;
      ghost var h1, t0, p := h, t, 0;
      r, p := NewZone(zone.addr, chunkSize);
      t := if NeedsDescriptors(h0, chunkSize) then t0.(page2 := p) else ZoneTrace(zone.addr, p, 0);
      if r.At? {
        ObtainedIntro(h0, chunkSize, NeedsDescriptors(h0, chunkSize), t, h1, h);
      } else {
        RollBack(h0, chunkSize, t0, h1, zone.addr, h);
        SamePages(st0);
      }
    }

    /** What holds between calls of the public interface. */
    ghost predicate Valid()
      reads Footprint()
    {
      State(h.zones, h.used) && Settled(h)
    }

    /** detail::chunkSize. */
    method ChunkSize(size: nat) returns (chunkSize: nat)
      requires 0 < size < Pow2(WORD)
      ensures size <= Pow2(UINT) ==> chunkSize == ClassOf(size) && LeastClass(size, chunkSize)
    {
      hide Pow2, CeilPow2;
      var clamped := if size > MINIMAL_ALLOC then size else MINIMAL_ALLOC;
      WordBounds();
      chunkSize := RoundPowerOf2(clamped);
      ClassOfLeast(size);
    }

    /** The ghost record of who holds which page group. */
    ghost method GrantPages(p: nat, k: nat, size: nat)
      requires State(h.zones, h.used[p := k]) && Settled(GrantBlock(h, p, k, size))
      modifies this`h
      ensures Valid() && h == GrantBlock(old(h), p, k, size)
      ensures h.addrs == old(h).addrs
    {
      hide Inv, Bucketed, ChunkLists, SizeClass, PageAllocator.Valid, FreeIn, Linked, Agree, Settled, GrantBlock;
      GrantBlockFields(h, p, k, size);
      SettledReserve(GrantBlock(h, p, k, size));
      h := GrantBlock(h, p, k, size);
    }

    /** The branch of allocate for whole pages. */
    method AllocatePages(size: nat) returns (ptr: Ptr, ghost p: nat)
      requires Valid() && 0 < size && Large(size, pageSize)
      modifies this`h, pageAllocator`freeGroupLists, pageAllocator`freePagesCount, pageAllocator`st,
        pageAllocator`lists,
               pageAllocator.pages, pageAllocator.links
      ensures Valid()
      ensures ptr.Null? <==> CannotServe(old(h), old(pageAllocator.st), size)
      ensures ptr.Null? ==> h == old(h) && pageAllocator.st == old(pageAllocator.st)
      ensures ptr.At? ==>
        && BlockServed(old(h), size, p, PagesFor(size, pageSize), h)
        && p < |h.addrs| && ptr.addr == h.addrs[p] > 0
        && FirstFit(old(pageAllocator.st), old(pageAllocator.lists), PagesFor(size, pageSize), p)
    {
      hide Inv, Bucketed, ChunkLists, SizeClass, PageAllocator.Valid, FreeIn, Linked, Agree, Settled, ClassOf, Large,
           Covers, PagesFor, AllocateAt, GrantBlock, BlockServed, FirstFit, Pow2;
      ghost var st := pageAllocator.st;
      FreePageFacts(pageAllocator);
      PageSizePositive(h);
      PagesForCovers(size, pageSize);
      var pageCount := PagesFor(size, pageSize);
      var page := pageAllocator.Allocate(pageCount);
      if page.Null? {
        NoPages(pageCount, size, pageSize);
        return Null, 0;
      }
      p := page.addr;
      AllocatedGroup(pageAllocator, st, p, pageCount);
      BlockServedIntro(h, size, p, pageCount);
      BlockServedSettled(h, size, p, pageCount, GrantBlock(h, p, pageCount, size));
      PositiveAddress(h, p);
      GrantPages(p, pageCount, size);
      return At(pageAllocator.pages[page.addr].addr), p;
    }

    /** allocate: nullptr exactly when the request cannot be served, and then nothing has changed. */
    method Allocate(size: nat) returns (ptr: Ptr, ghost w: Service)
      requires Valid() && size < Pow2(WORD)
      modifies this`zones, this`lists, this`h, this`objects, zoneNodes, chunkNodes, Objs(),
               pageAllocator`freeGroupLists, pageAllocator`freePagesCount, pageAllocator`st, pageAllocator`lists,
               pageAllocator.pages, pageAllocator.links
      ensures Valid() && old(h).pageSize > 0
      ensures ptr.Null? <==> CannotServe(old(h), old(pageAllocator.st), size)
      ensures ptr.Null? ==> h == old(h) && pageAllocator.st == old(pageAllocator.st)
      ensures ptr.At? ==> ptr.addr > 0 && Served(old(h), size, ptr.addr, w, h)
      ensures Promise(old(h), old(pageAllocator.st), size, ptr, h, pageAllocator.st)
      ensures fresh(Objs() - old(Objs()))
    {
      hide Inv, SizeClass, State, Settled, CannotServe, Served, Promise, Tiled, Coalesced, Borders;
      ghost var h0, p0 := h, pageAllocator.st;
      ZonesOutside();
      PagesOfState();
      PageSizePositive(h);
      PageSizeClass();
      ptr, w := Serve(size);
      PagesOfState();
      PromiseKept(h0, p0, size, ptr, w, h, pageAllocator.st);
    }

    lemma PageSizeClass()
      requires State(h.zones, h.used)
      ensures SizeClass(DESC, h.pageSize) && PowerOf2(h.pageSize)
    {
      hide Inv;
    }

    /** The branches of allocate. */
    method Serve(size: nat) returns (ptr: Ptr, ghost w: Service)
      requires Valid() && size < Pow2(WORD)
      modifies this`zones, this`lists, this`h, this`objects, zoneNodes, chunkNodes, Objs(),
               pageAllocator`freeGroupLists, pageAllocator`freePagesCount, pageAllocator`st, pageAllocator`lists,
               pageAllocator.pages, pageAllocator.links
      ensures Valid() && old(h).pageSize > 0
      ensures ptr.Null? <==> CannotServe(old(h), old(pageAllocator.st), size)
      ensures ptr.Null? ==> h == old(h) && pageAllocator.st == old(pageAllocator.st)
      ensures ptr.At? ==> ptr.addr > 0 && Served(old(h), size, ptr.addr, w, h)
      ensures fresh(Objs() - old(Objs()))
    {
      hide Inv, Bucketed, ChunkLists, SizeClass, PageAllocator.Valid, FreeIn, Linked, Agree, Settled, ClassOf,
           ChunkServed, BlockServed, Pow2, Log2, PagesFor, Obtained, FirstFit;
      PageSizePositive(h);
      w := Service(h, ZoneTrace(0, 0, 0), 0, 0);
      if size == 0 {
        return Null, w;
      }
      WordBounds();
      var allocSize := ChunkSize(size);
      if size >= pageSize || allocSize >= pageSize {
        ghost var p;
        ptr, p := AllocatePages(size);
        w := w.(page := p);
        return ptr, w;
      }
      SmallRequest(size);
      ptr, w := AllocateSmall(size, allocSize);
    }

    lemma SmallRequest(size: nat)
      requires State(h.zones, h.used) && size > 0 && size < pageSize && ClassOf(size) < pageSize
      ensures SizeClass(ClassOf(size), pageSize) && ClassOf(size) >= size && !Large(size, h.pageSize)
      ensures ClassOf(size) >= MINIMAL_ALLOC && ZoneIdx(ClassOf(size)) < |zones|
    {
      hide Inv, Agree, ChunkLists, ClassOf;
      SmallClass(size, pageSize);
      BucketOf(ClassOf(size), pageSize);
    }

    /** The branch of allocate for chunks. */
    method AllocateSmall(size: nat, allocSize: nat) returns (ptr: Ptr, ghost w: Service)
      requires Valid() && 0 < size && allocSize == ClassOf(size) && !Large(size, h.pageSize)
      requires SizeClass(allocSize, pageSize) && allocSize >= MINIMAL_ALLOC && ZoneIdx(allocSize) < |zones|
      modifies this`zones, this`lists, this`h, this`objects, zoneNodes, chunkNodes, Objs(),
               pageAllocator`freeGroupLists, pageAllocator`freePagesCount, pageAllocator`st, pageAllocator`lists,
               pageAllocator.pages, pageAllocator.links
      ensures Valid() && old(h).pageSize > 0
      ensures ptr.Null? <==> CannotServe(old(h), old(pageAllocator.st), size)
      ensures ptr.Null? ==> h == old(h) && pageAllocator.st == old(pageAllocator.st)
      ensures ptr.At? ==> ptr.addr > 0 && ChunkServed(old(h), size, w.middle, w.trace, w.zone, ptr.addr, h)
      ensures fresh(Objs() - old(Objs()))
    {
      hide Inv, SizeClass, FreeIn, ZoneIdx, BucketSize, Pending, Pow2, Take, Grant, State, Linkage, Settled, ClassOf,
           Large, Obtained, FirstWithFree, ChunkServed, Exhausted;
      ghost var h0, t := h, ZoneTrace(0, 0, 0);
      PageSizePositive(h);
      BucketForRequest(allocSize);
      FreePageSum();
      SpareChunk(h, allocSize);
      var idx := ZoneIdx(allocSize);
      var zone;
      if ShouldAllocateZone(idx) {
        zone, t := AllocateZone(allocSize);
      } else {
        zone := GetFreeZone(idx);
      }
      w := Service(h, t, 0, 0);
      if zone.Null? {
        return Null, w;
      }
      ServingZone(h0, allocSize, t, h, zone.addr, lists[idx]);
      w := w.(zone := zone.addr);
      ghost var c := h.zones[zone.addr].free[0];
      ghost var r := Grant(Take(h, zone.addr), c, size);
      ChunkServedIntro(h0, size, h, t, zone.addr, c, r);
      ServedSettled(h0, size, h, t, zone.addr, c, r);
      var chunk := HandOut(zone.addr, size);
      return At(chunk), w;
    }

    /** allocateChunk<void>: the chunk goes to the user. */
    method HandOut(a: nat, ghost size: nat) returns (chunk: nat)
      requires State(h.zones, h.used) && a in h.zones && h.zones[a].free != []
      requires Settled(Grant(Take(h, a), h.zones[a].free[0], size))
      modifies this`zones, this`h, chunkNodes, Objs()
      ensures Valid() && h == Grant(Take(old(h), a), old(h).zones[a].free[0], size)
      ensures chunk == old(h).zones[a].free[0] > 0
    {
      hide Inv, SizeClass, FreeIn, Take, Grant, State, Settled, Linkage;
      ZoneObject(a);
      StateOpen(h.zones);
      PositiveChunk(h, a);
      chunk := AllocateChunk(a);
      GrantTo(chunk, size);
    }

    /** The ghost record of who holds which chunk. */
    ghost method GrantTo(chunk: nat, size: nat)
      requires State(h.zones, h.used) && Settled(Grant(h, chunk, size))
      modifies this`h
      ensures Valid() && h == Grant(old(h), chunk, size)
    {
      hide Inv, SizeClass, FreeIn, Linked, Settled, Agree, ChunkLists, Bucketed, PageAllocator.Valid;
      SettledReserve(Grant(h, chunk, size));
      h := Grant(h, chunk, size);
    }

    ghost method RevokeFrom(chunk: nat)
      requires Valid() && chunk in h.live
      modifies this`h
      ensures State(h.zones, h.used) && h == Revoke(old(h), chunk) && Inv(h) && chunk in Pending(h)
    {
      hide Inv, SizeClass, FreeIn, Linked, Settled, Agree, ChunkLists, Bucketed, PageAllocator.Valid;
      ChunkReleased(h, chunk);
      h := Revoke(h, chunk);
    }

    /** release: accepts nullptr and every address the user holds. */
    method Release(ptr: Ptr)
      requires Valid() && (ptr.At? ==> Holds(h, ptr.addr))
      modifies this`zones, this`lists, this`h, this`objects, zoneNodes, chunkNodes, Objs(),
               pageAllocator`freeGroupLists, pageAllocator`freePagesCount, pageAllocator`st, pageAllocator`lists,
               pageAllocator.pages, pageAllocator.links
      ensures Valid() && Objs() <= old(Objs())
      ensures ptr.Null? ==> h == old(h) && pageAllocator.st == old(pageAllocator.st)
      ensures ptr.At? ==> Freed(old(h), ptr.addr, h)
    {
      hide Inv, Settled, State, Linkage, Pending, Dealloc, Revoke, RevokeBlock, NotAChunk, HoldsBlock, Pow2;
      if ptr.Null? {
        return;
      }
      ghost var h0 := h;
      HeldAddress(h, ptr.addr);
      if ptr.addr in h.live {
        RevokeFrom(ptr.addr);
      }
      var found := DeallocateChunk(ptr.addr);
      if found {
        FreedSettled(h0, ptr.addr, h);
        return;
      }
      ReleasePages(ptr.addr);
    }

    /** The second half of release: the address is that of a page group. */
    method ReleasePages(addr: nat)
      requires Valid() && addr !in h.live && addr < Pow2(WORD) && exists p :: HoldsBlock(h, addr, p)
      modifies this`h, pageAllocator`freeGroupLists, pageAllocator`freePagesCount, pageAllocator`st,
        pageAllocator`lists,
               pageAllocator.pages, pageAllocator.links
      ensures Valid() && Freed(old(h), addr, h)
    {
      hide Inv, SizeClass, FreeIn, Linked, Settled, Agree, ChunkLists, Bucketed, PageAllocator.Valid, Pow2;
      ghost var p :| HoldsBlock(h, addr, p);
      HeldPage(h, addr, p);
      pageAllocator.PageAddresses();
      var page := pageAllocator.GetPage(addr);
      UniquePage(h, addr, p);
      if page.At? {
        BlockReleased(h, p);
        pageAllocator.Release(page);
        RevokePages(p);
      }
    }

    ghost method RevokePages(p: nat)
      requires State(h.zones, h.used - {p}) && Settled(RevokeBlock(h, p))
      modifies this`h
      ensures Valid() && h == RevokeBlock(old(h), p)
    {
      hide Inv, SizeClass, FreeIn, Linked, Settled, Agree, ChunkLists, Bucketed, PageAllocator.Valid;
      SettledReserve(RevokeBlock(h, p));
      h := RevokeBlock(h, p);
    }

    /** getStats. The accumulations start from 0U, so the free bytes are kept in 32 bits. */
    method GetStats() returns (stats: ZoneStats)
      requires Valid() && |pageAllocator.regionsInfo| <= MAX_REGIONS
      ensures stats.usedMemorySize == Times(|h.zones|, pageSize)
      ensures |h.zones| >= 1 && stats.reservedMemorySize == Times(|h.zones| - 1, DESC)
      ensures stats.freeMemorySize == Truncate(Sum(FreeChunkBytes(h.zones)), UINT)
      ensures stats.allocatedMemorySize
           == Truncate(stats.usedMemorySize - stats.reservedMemorySize - stats.freeMemorySize, WORD)
    {
      hide Inv, Bucketed, ChunkLists, SizeClass, PageAllocator.Valid, FreeIn, Linked, Agree, BucketSize, Times,
           Truncate, Settled, Sum, FreeChunkBytes, Pow2, Below, Classed;
      FewZones();
      BucketsClassed();
      BelowEnds(h.zones, pageSize);
      NothingBelow();
      var usedZonesCount, free, i := 0, 0, 0;
      while i < |zones|
        invariant i <= MAX_ZONE_IDX && usedZonesCount == Truncate(|Below(h.zones, i)|, UINT)
      {
        BucketsComplete(i);
        BelowNext(h.zones, zones, lists, zoneNodes.nodes, pageSize, i);
        var count := CountZones(i);
        TruncateSum(|Below(h.zones, i)|, count, UINT);
        usedZonesCount := Truncate(usedZonesCount + count, UINT);
        i := i + 1;
      }
      i := 0;
      while i < |zones|
        invariant i <= MAX_ZONE_IDX && free == Truncate(Sum(FreeChunkBytes(Below(h.zones, i))), UINT)
      {
        BucketsComplete(i);
        BelowNext(h.zones, zones, lists, zoneNodes.nodes, pageSize, i);
        HeadOfList(i);
        if zones[i].head.At? {
          var bytes := Times(zones[i].freeChunksCount, objects[zones[i].head.addr].chunkSize);
          TruncateSum(Sum(FreeChunkBytes(Below(h.zones, i))), bytes, UINT);
          free := Truncate(free + bytes, UINT);
        }
        i := i + 1;
      }
      var used := Truncate(Times(usedZonesCount, pageSize), WORD);
      var reserved := if usedZonesCount > 0 then Truncate(Times(usedZonesCount - 1, zoneDescChunkSize), WORD) else 0;
      stats := ZoneStats(used, reserved, free, Truncate(used - reserved - free, WORD));
    }

    /** The inner loop of getStats: the length of a bucket's list. */
    method CountZones(i: nat) returns (count: nat)
      requires State(h.zones, h.used) && i < |zones| && i < |lists|
      ensures count == |lists[i]|
    {
      hide Inv, Bucketed, ChunkLists, SizeClass, PageAllocator.Valid, FreeIn, Linked, Agree;
      BucketsComplete(i);
      count := 0;
      var zone := zones[i].head;
      ghost var list := lists[i];
      while zone.At?
        invariant count <= |list| && zone == if count < |list| then At(list[count]) else Null
        decreases |list| - count
      {
        NextInList(zoneNodes.nodes, list, count);
        zone := zoneNodes.nodes[zone.addr].next;
        count := count + 1;
      }
    }

    lemma BucketsClassed()
      requires State(h.zones, h.used)
      ensures Bucketed(h.zones, zones, lists, zoneNodes.nodes) && Classed(h.zones, pageSize)
      ensures |zones| == |lists| == MAX_ZONE_IDX && zoneDescChunkSize == DESC
    {
      hide SizeClass, Agree, ChunkLists, PageAllocator.Valid;
      forall a | a in h.zones ensures SizeClass(h.zones[a].chunkSize, pageSize) {
        assert ZoneOk(h, h.zones[a]);
      }
    }

    lemma NothingBelow()
      requires Below(h.zones, 0) == map[]
      ensures |Below(h.zones, 0)| == 0 && Sum(FreeChunkBytes(Below(h.zones, 0))) == 0
      ensures Truncate(0, UINT) == 0
    {
      hide Below;
      assert FreeChunkBytes(map[]) == map[];
      SumEmpty();
      TruncateSmall(0, UINT);
    }

    /** The chunk size of the head of a list is that of the bucket; without zones there are no free chunks. */
    lemma HeadOfList(i: nat)
      requires State(h.zones, h.used) && i < |zones|
      ensures zones[i].head.At? ==>
        zones[i].head.addr in objects && objects[zones[i].head.addr].chunkSize == BucketSize(i)
      ensures zones[i].head.Null? ==> Times(zones[i].freeChunksCount, BucketSize(i)) == 0
    {
      hide Inv, ChunkLists, SizeClass, PageAllocator.Valid, FreeIn, Agree, BucketSize, Bucketed, Times;
      BucketsClassed();
      BucketsComplete(i);
      BucketEntry(h.zones, zones, lists, zoneNodes.nodes, i);
      if zones[i].head.At? {
        assert lists[i][0] in lists[i];
        ZoneObject(zones[i].head.addr);
      } else {
        EmptyBucket(h.zones, BucketSize(i));
        TimesAdd(0, 0, BucketSize(i));
      }
    }

    /** All numbers of getStats but the accumulated byte counts are small. */
    lemma FewZones()
      requires Valid() && |pageAllocator.regionsInfo| <= MAX_REGIONS
      ensures 1 <= |h.zones| && Truncate(|h.zones|, UINT) == |h.zones|
      ensures Truncate(Times(|h.zones|, pageSize), WORD) == Times(|h.zones|, pageSize)
      ensures Truncate(Times(|h.zones| - 1, DESC), WORD) == Times(|h.zones| - 1, DESC)
    {
      hide Settled, Inv, Agree, ChunkLists, Bucketed, Sum, Times, Truncate, Pow2, Layout, Consistent, Coalesced,
           Tiled, SizeClass;
      FreePageSum();
      PagesOfState();
      LayoutTotals(pageAllocator.regionsInfo, pageSize, h.addrs, pageAllocator.st);
      ZoneNumbers(h, pageAllocator.st.n, |pageAllocator.regionsInfo|, pageSize);
    }

    method Clear()
      modifies this
      ensures pageAllocator == old(pageAllocator)
      ensures fresh(zoneNodes) && fresh(chunkNodes) && zoneNodes != chunkNodes
      ensures zoneNodes.nodes == chunkNodes.nodes == map[] && objects == map[]
      ensures zones == EmptyTable()
    {
      pageSize, zoneDescChunkSize, zoneDescIdx := 0, 0, 0;
      objects := map[];
      zoneNodes := new ListNodes();
      chunkNodes := new ListNodes();
      zones := EmptyTable();
    }

    /** init: the static initial zone, with descriptor chunks, on a page of its own. */
    method Init(pageSize: nat) returns (ok: bool)
      requires pageAllocator.Valid() && pageAllocator.pageSize == pageSize
        && MINIMAL_PAGE_SIZE <= pageSize <= MAX_PAGE_SIZE
      requires pageAllocator.descRegionIdx < |pageAllocator.regionsInfo|
      requires var first := pageAllocator.regionsInfo[pageAllocator.descRegionIdx].firstPage;
        pageAllocator.st.used == map[first := pageAllocator.descPagesCount]
      modifies this, pageAllocator`freeGroupLists, pageAllocator`freePagesCount, pageAllocator`st, pageAllocator`lists,
               pageAllocator.pages, pageAllocator.links
      ensures pageAllocator == old(pageAllocator)
      ensures ok <==> old(pageAllocator.freePagesCount) > 0
      ensures ok ==>
        && Valid() && fresh(zoneNodes) && fresh(chunkNodes) && fresh(Objs())
        && h.live == map[] && h.blocks == map[] && h.pageSize == pageSize
        && h.zones.Keys == {INITIAL} && Unused(h.zones[INITIAL]) && h.host == map[]
    {
      hide Inv, Bucketed, ChunkLists, SizeClass, PageAllocator.Valid, FreeIn, Linked, Settled, ZoneIdx, BucketSize,
           Carved, ChunkSet, ChunkCount, PagesApart, InitialHeap, Unused, Geometry, Pow2, CeilPow2, Valid, State,
           ClassOf, LeastClass, Initialized, EmptyTable, DESC_IDX;
      Clear();
      DescriptorClass();
      DescriptorFits(pageAllocator);
      this.pageSize := pageSize;
      WordBounds();
      zoneDescChunkSize := ChunkSize(SIZEOF_ZONE);
      zoneDescIdx := ZoneIdx(zoneDescChunkSize);
      var initialZone := new Z.Zone(INITIAL);
      ghost var p;
      ghost var used := pageAllocator.st.used;
      ok, p := InitZone(initialZone, zoneDescChunkSize);
      if !ok {
        return false;
      }
      InstallInitial(initialZone, p, used);
      return true;
    }

    /** addZone(&m_initialZone). */
    method InstallInitial(zone: Z.Zone, ghost p: nat, ghost used: map<nat, nat>)
      requires pageAllocator.Valid() && pageSize == pageAllocator.pageSize <= MAX_PAGE_SIZE
      requires zoneNodes != chunkNodes && pageAllocator.links != zoneNodes && pageAllocator.links != chunkNodes
      requires pageAllocator.descRegionIdx < |pageAllocator.regionsInfo|
      requires var first := pageAllocator.regionsInfo[pageAllocator.descRegionIdx].firstPage;
        used == map[first := pageAllocator.descPagesCount]
      requires p < |pageAllocator.addrs| && p !in used && pageAllocator.st.used == used[p := 1]
      requires SizeClass(DESC, pageSize) && PagesApart(pageSize, pageAllocator.addrs) && zoneDescChunkSize == DESC
        && zoneDescIdx == DESC_IDX
      requires zone.self == INITIAL
        && Initialized(zone, p, pageAllocator.addrs[p], DESC, pageSize, map[], chunkNodes.nodes)
      requires zoneNodes.nodes == map[INITIAL := UNLINKED] && zones == EmptyTable()
      modifies this`h, this`lists, this`zones, this`objects, zoneNodes
      ensures Valid() && Objs() == {zone} && h.live == map[] && h.blocks == map[] && h.pageSize == pageSize
      ensures h.zones.Keys == {INITIAL} && Unused(h.zones[INITIAL]) && h.host == map[]
    {
      hide Inv, Bucketed, ChunkLists, SizeClass, PageAllocator.Valid, FreeIn, Linked, Settled, ZoneIdx, BucketSize,
           Carved, ChunkSet, ChunkCount, PagesApart, InitialHeap, Geometry, Pow2, CeilPow2, Agree, State, Unused,
           EmptyTable, EmptyLists;
      ghost var reserved := pageAllocator.regionsInfo[pageAllocator.descRegionIdx].firstPage;
      ghost var g := InitialHeap(pageSize, pageAllocator.addrs, reserved, used, p);
      InitialSettled(pageSize, pageAllocator.addrs, reserved, pageAllocator.descPagesCount, p);
      InitialFields(pageSize, pageAllocator.addrs, reserved, used, p);
      ghost var z := g.zones[INITIAL];
      lists := EmptyLists();
      EmptyBuckets(zoneNodes.nodes);
      AddZone(zone, map[], z);
      objects := map[INITIAL := zone];
      h := g;
      SettledReserve(h);
      SingleChunkList(z, chunkNodes.nodes);
      SingleObject(zone, z);
      StateClose(h.zones);
    }

    lemma PagesOfState()
      requires State(h.zones, h.used)
      ensures Tiled(pageAllocator.st) && Coalesced(pageAllocator.st)
      ensures pageAllocator.st.n == |h.addrs| && pageAllocator.st.borders == Borders(pageAllocator.regionsInfo)
      ensures h.addrs == pageAllocator.addrs
      ensures pageAllocator.st.used == h.used
    {
      hide Inv;
      FreePageFacts(pageAllocator);
    }

    /** No zone object is one of the allocators. */
    lemma ZonesOutside()
      ensures this !in Objs() && pageAllocator !in Objs()
    {
    }

    /** The heap determines the page partition. */
    lemma SamePages(p: Pages)
      requires State(h.zones, h.used) && Tiled(p) && Coalesced(p)
      requires p.n == |h.addrs| && p.borders == Borders(pageAllocator.regionsInfo) && p.used == h.used
      ensures pageAllocator.st == p
    {
      hide State, Tiled, Coalesced, Borders;
      PagesOfState();
      Canonical(p, pageAllocator.st);
    }

    lemma FreePageSum()
      requires State(h.zones, h.used)
      ensures pageAllocator.freePagesCount == Sum(pageAllocator.st.free)
      ensures pageAllocator.freePagesCount + Sum(pageAllocator.st.used) == pageAllocator.st.n
    {
      hide Inv;
      FreePageFacts(pageAllocator);
    }

    /** What the code reads about the bucket of a request. */
    lemma BucketForRequest(cs: nat)
      requires State(h.zones, h.used) && SizeClass(cs, pageSize) && cs >= MINIMAL_ALLOC && ZoneIdx(cs) < |zones|
      ensures ShouldAllocateZone(ZoneIdx(cs)) <==> Exhausted(h, cs)
      ensures ZoneIdx(cs) < |lists| && ZoneIdx(cs) < MAX_ZONE_IDX && h.pageSize == pageSize
      ensures PowerOf2(h.pageSize) && SizeClass(DESC, h.pageSize)
      ensures forall a | a in lists[ZoneIdx(cs)] :: a in h.zones && h.zones[a].chunkSize == cs
      ensures FreeIn(h.zones, cs) > 0 ==> FirstWithFree(h.zones, lists[ZoneIdx(cs)]).At?
    {
      hide Inv, Agree, ChunkLists, Bucketed, FreeIn, ZoneIdx, BucketSize;
      DescriptorClass();
      ZoneIdxExact(cs, DESC_IDX);
      BucketOf(cs, pageSize);
      BucketEntry(h.zones, zones, lists, zoneNodes.nodes, ZoneIdx(cs));
      FirstWithFreeFacts(h.zones, lists[ZoneIdx(cs)]);
      if FreeIn(h.zones, cs) > 0 {
        SomeFree(h.zones, cs);
        var a :| a in h.zones && h.zones[a].chunkSize == cs && h.zones[a].free != [];
        assert a in lists[ZoneIdx(cs)];
      }
    }

    /** What the code reads about the descriptor bucket. */
    lemma DescriptorBucket()
      requires State(h.zones, h.used)
      ensures zoneDescChunkSize == DESC && zoneDescIdx == DESC_IDX && |zones| == |lists| == MAX_ZONE_IDX
      ensures zones[DESC_IDX].freeChunksCount == FreeIn(h.zones, DESC) && SizeClass(DESC, pageSize)
        && h.pageSize == pageSize
      ensures forall a | a in lists[DESC_IDX] :: a in h.zones && h.zones[a].chunkSize == DESC
      ensures FreeIn(h.zones, DESC) > 0 ==> FirstWithFree(h.zones, lists[DESC_IDX]).At?
    {
      hide Inv, SizeClass, Agree, ChunkLists, Bucketed, FreeIn;
      DescriptorClass();
      BucketEntry(h.zones, zones, lists, zoneNodes.nodes, DESC_IDX);
      FirstWithFreeFacts(h.zones, lists[DESC_IDX]);
      if FreeIn(h.zones, DESC) > 0 {
        SomeFree(h.zones, DESC);
        var a :| a in h.zones && h.zones[a].chunkSize == DESC && h.zones[a].free != [];
        assert a in lists[DESC_IDX];
      }
    }

    lemma StateOpen(indexed: map<nat, Zone>)
      requires State(indexed, h.used)
      ensures zoneNodes != chunkNodes && pageAllocator.links != zoneNodes && pageAllocator.links != chunkNodes
      ensures Linkage(h.used) && Inv(h) && Agree(objects, h.zones)
      ensures ChunkLists(h.zones, chunkNodes.nodes) && Bucketed(indexed, zones, lists, zoneNodes.nodes)
    {
    }

    lemma StateClose(indexed: map<nat, Zone>)
      requires zoneNodes != chunkNodes && pageAllocator.links != zoneNodes && pageAllocator.links != chunkNodes
      requires Linkage(h.used) && Inv(h) && Agree(objects, h.zones)
      requires ChunkLists(h.zones, chunkNodes.nodes) && Bucketed(indexed, zones, lists, zoneNodes.nodes)
      ensures State(indexed, h.used)
    {
    }

    /** addZone for a zone that was just initialized on page p. */
    method AdoptZone(zone: Z.Zone, chunkSize: nat, ghost p: nat, ghost nodes: map<nat, Node>, ghost znodes: map<nat,
        Node>)
      requires zoneNodes != chunkNodes && pageAllocator.links != zoneNodes && pageAllocator.links != chunkNodes
      requires p < |h.addrs| && p !in h.used && Linkage(h.used[p := 1]) && SizeClass(chunkSize, pageSize)
        && chunkSize >= MINIMAL_ALLOC
      requires Inv(h) && Agree(objects, h.zones) && ChunkLists(h.zones, nodes)
        && Bucketed(h.zones, zones, lists, znodes)
      requires zone.self in Pending(h) && h.host[zone.self] in h.zones && h.zones[h.host[zone.self]].chunkSize == DESC
      requires Initialized(zone, p, h.addrs[p], chunkSize, pageSize, nodes, chunkNodes.nodes)
      requires zoneNodes.nodes == znodes[zone.self := UNLINKED]
      modifies this`zones, this`lists, this`h, this`objects, zoneNodes
      ensures State(h.zones, h.used) && h == Birth(old(h), zone.self, p, chunkSize)
      ensures objects == old(objects)[zone.self := zone] && Objs() <= old(Objs()) + {zone}
      ensures HeadOfBucket(lists, chunkSize, zone.self)
    {
      hide Inv, Bucketed, ChunkLists, SizeClass, PageAllocator.Valid, FreeIn, Linked, ZoneIdx, BucketSize, Agree,
           Pow2, Carved, ChunkSet, BornZone, Birth, ZoneOk, State, Pending;
      ghost var t, d := h, zone.self;
      PendingHosted(t, d);
      ghost var z := BornZone(t, d, p, chunkSize);
      BirthKeeps(t, d, p, chunkSize);
      BornFields(t, d, p, chunkSize);
      ChunkListsInsert(t, d, z, nodes, chunkNodes.nodes);
      BucketsIgnore(t.zones, zones, lists, znodes, zoneNodes.nodes, d);
      AddZone(zone, t.zones, z);
      AgreeAdd(objects, t.zones, d, zone, z);
      objects := objects[zone.self := zone];
      h := Birth(t, d, p, chunkSize);
      StateClose(h.zones);
    }

    lemma ZoneUnused(a: nat)
      requires State(h.zones, h.used) && a in h.zones
      ensures a in objects && (Unused(h.zones[a]) <==> objects[a].chunksCount == objects[a].freeChunksCount)
    {
      ZoneObject(a);
    }

    lemma PageSizeFacts()
      requires State(h.zones, h.used)
      ensures 1 <= pageSize <= Pow2(WORD) && |zones| == |lists| == MAX_ZONE_IDX
    {
      hide Inv;
      PageSizeFits(pageAllocator.regionsInfo, pageSize, h.addrs, pageAllocator.st);
    }

    lemma BucketsComplete(i: nat)
      requires State(h.zones, h.used) && i < |zones|
      ensures i < |lists| && Linked(zoneNodes.nodes, lists[i]) && zones[i].head == Head(lists[i])
      ensures forall a | a in lists[i] :: a in h.zones
    {
      BucketEntry(h.zones, zones, lists, zoneNodes.nodes, i);
    }

    /** The page of a zone and the page floor of its chunks. */
    lemma ZonePage(a: nat, chunk: nat)
      requires State(h.zones, h.used) && a in h.zones && chunk < Pow2(WORD)
      ensures h.zones[a].page < pageAllocator.pages.Length && objects[a].page == At(h.zones[a].page)
      ensures pageAllocator.pages[h.zones[a].page].addr == h.addrs[h.zones[a].page]
      ensures objects[a].chunkSize == h.zones[a].chunkSize && objects[a].chunksCount == |h.zones[a].chunks|
      ensures h.zones[a].chunks == ChunkSet(h.addrs[h.zones[a].page], objects[a].chunkSize, objects[a].chunksCount)
      ensures 1 <= pageSize <= Pow2(WORD)
      ensures chunk in h.zones[a].chunks ==> PageFloor(chunk, pageSize) == h.addrs[h.zones[a].page]
    {
      hide Bucketed, ChunkLists, SizeClass, FreeIn, Linked, PageFloor, Pow2, ChunkSet, Agree;
      PageSizeFacts();
      assert ZoneOk(h, h.zones[a]);
      ZoneFacts(h, h.zones[a]);
      ZoneObject(a);
      pageAllocator.PageAddresses();
      if chunk in h.zones[a].chunks {
        PageOfChunk(h, h.zones[a], chunk);
        FloorInPage(chunk, pageSize, h.addrs[h.zones[a].page]);
      }
    }

    lemma NoZoneMissed(chunk: nat)
      requires State(h.zones, h.used)
      requires forall b | b in h.zones && chunk in h.zones[b].chunks :: !BucketBelow(lists, |zones|, b)
      ensures NotAChunk(h, chunk)
    {
      hide SizeClass, FreeIn, Linked, ChunkLists, Inv;
      forall b | b in h.zones ensures chunk !in h.zones[b].chunks {
        ZoneObject(b);
        BucketEntry(h.zones, zones, lists, zoneNodes.nodes, ZoneIdx(h.zones[b].chunkSize));
        assert b in lists[ZoneIdx(h.zones[b].chunkSize)];
        assert BucketBelow(lists, |zones|, b);
      }
    }
  }

  lemma GiveListsKept(h: Heap, c: nat, nodes: map<nat, Node>, nodes': map<nat, Node>)
    requires Inv(h) && c in Pending(h) && ChunkLists(h.zones, nodes)
    requires h.host[c] in h.zones && Linked(nodes', [c] + h.zones[h.host[c]].free)
    requires forall q | q in nodes && q != c && q !in h.zones[h.host[c]].free :: q in nodes' && nodes'[q] == nodes[q]
    ensures ChunkLists(Give(h, c).zones, nodes')
  {
    hide ZoneOk, Linked;
    var a := h.host[c];
    if h.zones[a].free != [] { FreeIsChunk(h, a, h.zones[a].free[0]); }
    ChunkListsUpdate(h, a, [c] + h.zones[a].free, nodes, nodes');
  }

  lemma NoZoneNoPending(h: Heap, c: nat)
    requires Inv(h) && NotAChunk(h, c)
    ensures c !in Pending(h)
  {
  }

  lemma FoundHost(h: Heap, c: nat, a: nat)
    requires Inv(h) && a in h.zones && c in h.zones[a].chunks && (c in Pending(h) || NotAChunk(h, c))
    ensures c in Pending(h) && c in h.host && h.host[c] == a
  {
    hide ZoneOk, Distinct;
    OneZone(h, a, h.host[c], c);
  }

  /** The zone that Birth creates. */
  ghost function BornZone(t: Heap, d: nat, p: nat, chunkSize: nat): Zone
    requires chunkSize > 0 && p < |t.addrs| && d in t.host && t.host[d] in t.zones
  {
    Birth(t, d, p, chunkSize).zones[d]
  }

  lemma BornFields(t: Heap, d: nat, p: nat, chunkSize: nat)
    requires Inv(t) && d in Pending(t) && t.host[d] in t.zones && t.zones[t.host[d]].chunkSize == DESC
    requires p < |t.addrs| && p !in t.used && SizeClass(chunkSize, t.pageSize)
    ensures chunkSize > 0
    ensures var z := BornZone(t, d, p, chunkSize);
      && z.page == p && z.chunkSize == chunkSize
         && z.free == Carved(t.addrs[p], chunkSize, ChunkCount(t.pageSize, chunkSize))
      && |z.chunks| == |z.free| == ChunkCount(t.pageSize, chunkSize)
      && Birth(t, d, p, chunkSize).zones == t.zones[d := z]
      && Birth(t, d, p, chunkSize).used == t.used[p := 1]
      && Birth(t, d, p, chunkSize).addrs == t.addrs && Birth(t, d, p, chunkSize).pageSize == t.pageSize
      && Birth(t, d, p, chunkSize).reserved == t.reserved
      && ZoneOk(t, z)
  {
    hide ZonesOk, UsedOk, HostOk, DescribedOk, PagesApart, SizeClass, TilesPage, ChunkSet, Carved, ZoneOk,
         PageAddress, Pending, Distinct, Unused;
    PendingHosted(t, d);
    BirthKeeps(t, d, p, chunkSize);
    ChunksTilePage(t.addrs[p], chunkSize, t.pageSize);
    CarvedFacts(t.addrs[p], chunkSize, ChunkCount(t.pageSize, chunkSize));
    var g := Birth(t, d, p, chunkSize);
    ZoneSane(g, d);
    SameZoneOk(g, t, g.zones[d]);
  }

  lemma AgreeAdd(objects: map<nat, Z.Zone>, zs: map<nat, Zone>, d: nat, zone: Z.Zone, z: Zone)
    requires Agree(objects, zs) && d !in zs && zone.self == d && zone.Fields(z)
    ensures Agree(objects[d := zone], zs[d := z])
  {
  }

  lemma TakenFacts(h: Heap, a: nat)
    requires Inv(h) && a in h.zones && h.zones[a].free != []
    ensures var t, c := Take(h, a), h.zones[a].free[0];
      && c in t.host && t.host[c] == a && a in t.zones && t.zones[a].chunkSize == h.zones[a].chunkSize
      && t.used == h.used && t.addrs == h.addrs && t.pageSize == h.pageSize && t.reserved == h.reserved
      && t.zones.Keys == h.zones.Keys
      && c in Pending(t) && Inv(t) && c < Pow2(WORD)
      && c !in h.zones && c != INITIAL
  {
    hide Pow2, Inv;
    TakeKeeps(h, a);
    FreshChunk(h, a, h.zones[a].free[0]);
    ChunkAddress(Take(h, a), h.zones[a].free[0]);
  }

  lemma ChunkSizePositive(chunkSize: nat, pageSize: nat)
    requires SizeClass(chunkSize, pageSize)
    ensures chunkSize >= MINIMAL_ALLOC
  {
  }

  lemma ChunkAddress(h: Heap, c: nat)
    requires Inv(h) && c in h.host
    ensures 0 < c < Pow2(WORD)
  {
    hide Pow2, UsedOk, DescribedOk;
    HostedIn(h, c);
    var z := h.zones[h.host[c]];
    assert ZoneOk(h, z);
    PageOfChunk(h, z, c);
  }

  /** Descriptor addresses are machine words. */
  lemma ZoneAddress(h: Heap, a: nat)
    requires Inv(h) && a in h.zones && a != INITIAL
    ensures a < Pow2(WORD)
  {
    hide Pow2, UsedOk;
    assert a in h.host;
    HostedIn(h, a);
    var z := h.zones[h.host[a]];
    assert ZoneOk(h, z);
    PageOfChunk(h, z, a);
  }

  /** A free group exists exactly when the free page counter is positive. */
  lemma FreePageFacts(pa: PageAllocator)
    requires pa.Valid()
    ensures Tiled(pa.st) && Coalesced(pa.st) && pa.freePagesCount == Sum(pa.st.free)
      && pa.freePagesCount + Sum(pa.st.used) == pa.st.n
    ensures pa.freePagesCount > 0 <==> exists g :: g in pa.st.free && pa.st.free[g] >= 1
  {
    FreeBound(pa.st, pa.pages[..], pa.addrs, pa.freeGroupLists, pa.lists, pa.links.nodes, pa.freePagesCount, Null);
    PagesAddUp(pa.st);
    if pa.freePagesCount > 0 { SumPositive(pa.st.free); }
  }

  lemma WordBounds()
    ensures MINIMAL_ALLOC < Pow2(WORD) && MAX_PAGE_SIZE <= Pow2(32)
  {
    Pow2Add(6, 6);
    assert Pow2(5) == 32 && Pow2(6) == 64;
    Pow2Mono(12, 32);
    Pow2Mono(5, WORD);
  }

  lemma NoPages(count: nat, size: nat, pageSize: nat)
    requires size > 0 && pageSize > 0 && Covers(count, pageSize, size)
    ensures count > 0
  {
  }

  lemma BlockServedIntro(h: Heap, size: nat, p: nat, k: nat)
    requires 0 < size && Large(size, h.pageSize) && Covers(k, h.pageSize, size) && p !in h.used
    ensures BlockServed(h, size, p, k, GrantBlock(h, p, k, size))
  {
  }

  lemma GrantBlockFields(h: Heap, p: nat, k: nat, size: nat)
    ensures var r := GrantBlock(h, p, k, size);
      && r.zones == h.zones && r.used == h.used[p := k] && r.addrs == h.addrs && r.pageSize == h.pageSize
         && r.reserved == h.reserved
  {
  }

  lemma PageSizePositive(h: Heap)
    requires Settled(h)
    ensures h.pageSize > 0
  {
  }

  lemma PositiveAddress(h: Heap, p: nat)
    requires Settled(h) && p < |h.addrs|
    ensures h.addrs[p] > 0
  {
  }

  /** What allocating k pages means for the used groups and the descriptor of the first page. */
  lemma AllocatedGroup(pa: PageAllocator, st: Pages, p: nat, k: nat)
    requires pa.Valid() && Tiled(st) && Coalesced(st) && p in st.free && 0 < k <= st.free[p]
      && pa.st == AllocateAt(st, p, k)
    ensures p !in st.used && pa.st.used == st.used[p := k] && pa.st.n == st.n && pa.st.borders == st.borders
    ensures p < |pa.addrs| == pa.pages.Length && pa.pages[p].addr == pa.addrs[p]
  {
    AllocateAtKeeps(st, p, k);
    assert IsStart(pa.st, p);
    PageOfGroup(pa, p);
  }

  lemma PageOfGroup(pa: PageAllocator, p: nat)
    requires pa.Valid() && IsStart(pa.st, p)
    ensures p < |pa.addrs| == pa.pages.Length == pa.st.n && pa.pages[p].addr == pa.addrs[p]
  {
    FreeBound(pa.st, pa.pages[..], pa.addrs, pa.freeGroupLists, pa.lists, pa.links.nodes, pa.freePagesCount, Null);
    Apart(pa.st, p, p);
    pa.PageAddresses();
  }

  lemma PendingNotFree(h: Heap, c: nat)
    requires Inv(h) && c in Pending(h)
    ensures c in h.host && h.host[c] in h.zones && c !in h.zones[h.host[c]].free && c in h.zones[h.host[c]].chunks
  {
  }

  lemma TakeListsKept(h: Heap, a: nat, nodes: map<nat, Node>, nodes': map<nat, Node>)
    requires Inv(h) && a in h.zones && h.zones[a].free != [] && ChunkLists(h.zones, nodes)
    requires Linked(nodes', h.zones[a].free[1..]) && nodes'.Keys == nodes.Keys
    requires forall q | q in nodes' && q !in h.zones[a].free :: nodes'[q] == nodes[q]
    ensures ChunkLists(Take(h, a).zones, nodes')
  {
    hide ZoneOk, Linked;
    FreeIsChunk(h, a, h.zones[a].free[0]);
    ChunkListsUpdate(h, a, h.zones[a].free[1..], nodes, nodes');
  }
}
