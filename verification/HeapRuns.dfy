/** Whole runs of the allocator: every sequence of allocate and release calls from init on. */
module HeapRuns {
  import opened Bits
  import opened HeapModel
  import opened HeapSafety
  import opened HeapSteps
  import opened ListNode
  import opened PagePartition
  import opened Regions
  import opened Sums

  /** One call of the public interface: its argument and its result. */
  datatype Event =
    | Allocated(size: nat, result: Ptr)
    | Released(ptr: Ptr)

  datatype Snapshot = Snapshot(heap: Heap, pages: Pages)

  /** What one call does. The page allocator's part is only that it hands out and takes back groups of a
      tiled, coalesced partition of the same pages; this determines the free groups. */
  ghost predicate Step(s: Snapshot, e: Event, r: Snapshot)
  {
    && Tiled(r.pages) && Coalesced(r.pages) && r.pages.used == r.heap.used
    && r.pages.n == s.pages.n && r.pages.borders == s.pages.borders
    && match e
       case Allocated(size, Null) => s.heap.pageSize > 0 && CannotServe(s.heap, s.pages, size) && r == s
       case Allocated(size, At(addr)) => exists w :: Served(s.heap, size, addr, w, r.heap)
       case Released(Null) => r == s
       case Released(At(addr)) => Holds(s.heap, addr) && Freed(s.heap, addr, r.heap)
  }

  /** What init fixes for the whole run. */
  ghost predicate SameSetup(s: Snapshot, r: Snapshot)
  {
    && r.heap.addrs == s.heap.addrs && r.heap.pageSize == s.heap.pageSize && r.heap.reserved == s.heap.reserved
    && r.pages.n == s.pages.n && r.pages.borders == s.pages.borders
    && s.heap.reserved in s.heap.used && s.heap.reserved in r.heap.used
    && r.heap.used[s.heap.reserved] == s.heap.used[s.heap.reserved]
    && INITIAL in s.heap.zones && INITIAL in r.heap.zones
    && r.heap.zones[INITIAL].page == s.heap.zones[INITIAL].page
  }

  ghost predicate Sound(s: Snapshot)
  {
    WellFormed(s.heap, s.pages)
  }

  /** The addresses the user holds, with the sizes asked for. */
  ghost predicate HeldSize(h: Heap, addr: nat, size: nat)
  {
    || (addr in h.live && h.live[addr] == size)
    || (exists p :: HoldsBlock(h, addr, p) && h.blocks[p] == size)
  }

  // ----- one step

  lemma InitialIn(h: Heap)
    requires Settled(h)
    ensures INITIAL in h.zones && h.reserved in h.used
  {
  }

  lemma ObtainedSetup(h: Heap, chunkSize: nat, t: ZoneTrace, m: Heap, d: nat)
    requires Settled(h) && SizeClass(chunkSize, h.pageSize) && SizeClass(DESC, h.pageSize)
      && Obtained(h, chunkSize, t, m, d)
    ensures INITIAL in h.zones && INITIAL in m.zones && m.zones[INITIAL].page == h.zones[INITIAL].page
    ensures h.reserved in h.used && h.reserved in m.used && m.used[h.reserved] == h.used[h.reserved]
    ensures forall p | p in h.used :: p in m.used && m.used[p] == h.used[p]
  {
    hide Inv, FreeIn, Pending, SizeClass, WithZone, Unused;
    InitialIn(h);
    SettledReserve(h);
    if NeedsDescriptors(h, chunkSize) {
      WithZoneSetup(h, t.first, t.page1, DESC);
      NewZoneExpected(h, t.first, t.page1, DESC);
      WithZoneSetup(WithZone(h, t.first, t.page1, DESC), h.zones[t.first].free[0], t.page2, chunkSize);
    } else {
      WithZoneSetup(h, t.first, t.page1, chunkSize);
    }
  }

  lemma WithZoneSetup(h: Heap, a: nat, p: nat, chunkSize: nat)
    requires Inv(h) && CanHost(h, a, p) && SizeClass(chunkSize, h.pageSize)
    ensures chunkSize > 0
    ensures var m := WithZone(h, a, p, chunkSize);
      && m.zones.Keys >= h.zones.Keys && (forall b | b in h.zones :: m.zones[b].page == h.zones[b].page)
      && (forall q | q in h.used :: q in m.used && m.used[q] == h.used[q])
      && m.reserved == h.reserved && m.pageSize == h.pageSize
  {
    hide Inv, SizeClass, Pending, Unused;
    WithZoneKeeps(h, a, p, chunkSize);
  }

  lemma ServedSetup(h: Heap, size: nat, addr: nat, w: Service, r: Heap)
    requires Settled(h) && PowerOf2(h.pageSize) && SizeClass(DESC, h.pageSize) && Served(h, size, addr, w, r)
    ensures Settled(r) && r.addrs == h.addrs && r.pageSize == h.pageSize && r.reserved == h.reserved
    ensures INITIAL in h.zones && INITIAL in r.zones && r.zones[INITIAL].page == h.zones[INITIAL].page
    ensures h.reserved in h.used && h.reserved in r.used && r.used[h.reserved] == h.used[h.reserved]
  {
    hide Settled, SizeClass, Obtained, ClassOf, Large, Exhausted, Covers;
    InitialIn(h);
    if Large(size, h.pageSize) {
      BlockServedSettled(h, size, w.page, PagesFor(size, h.pageSize), r);
    } else {
      ServedSettled(h, size, w.middle, w.trace, w.zone, addr, r);
      if Exhausted(h, ClassOf(size)) {
        SmallClass(size, h.pageSize);
        ObtainedSetup(h, ClassOf(size), w.trace, w.middle, w.zone);
      }
    }
  }

  lemma FreedSetup(h: Heap, addr: nat, r: Heap)
    requires Settled(h) && Freed(h, addr, r)
    ensures INITIAL in h.zones && INITIAL in r.zones && r.zones[INITIAL].page == h.zones[INITIAL].page
  {
    hide Inv, FreeIn, Settled;
    InitialIn(h);
    FreedSettled(h, addr, r);
    if addr in h.live {
      assert SameZone(Revoke(h, addr), r, INITIAL);
    }
  }

  /** Every call keeps the heap sound and the set-up of init in place. */
  lemma StepKeeps(s: Snapshot, e: Event, r: Snapshot)
    requires Sound(s) && Step(s, e, r)
    ensures Sound(r) && SameSetup(s, r)
  {
    hide Tiled, Coalesced, Settled, SizeClass, Geometry, Served, Freed, Holds, CannotServe;
    InitialIn(s.heap);
    match e
    case Allocated(size, Null) =>
    case Allocated(size, At(addr)) =>
      var w :| Served(s.heap, size, addr, w, r.heap);
      ServedSetup(s.heap, size, addr, w, r.heap);
    case Released(Null) =>
    case Released(At(addr)) =>
      FreedSettled(s.heap, addr, r.heap);
      FreedSetup(s.heap, addr, r.heap);
  }

  // ----- what the user holds

  lemma BlockAddressUnique(h: Heap, p: nat, q: nat)
    requires Settled(h) && p < |h.addrs| && q < |h.addrs| && h.addrs[p] == h.addrs[q]
    ensures p == q
  {
  }

  /** A block address is no chunk the user holds. */
  lemma LiveIsNoBlock(h: Heap, addr: nat, p: nat)
    requires Settled(h) && HoldsBlock(h, addr, p)
    ensures addr !in h.live
  {
    hide Inv, FreeIn;
    if addr in h.live {
      LiveChunk(h, addr);
      HostedIn(h, addr);
      BlockIsNoChunk(h, addr, p, h.host[addr]);
    }
  }

  /** allocate returns an address the user does not hold yet; afterwards the user holds exactly one block
      more, of the requested size. */
  lemma AllocateHolds(s: Snapshot, size: nat, addr: nat, r: Snapshot)
    requires Sound(s) && Step(s, Allocated(size, At(addr)), r)
    ensures !Holds(s.heap, addr) && size > 0
    ensures forall x, k :: HeldSize(r.heap, x, k) <==> HeldSize(s.heap, x, k) || (x == addr && k == size)
  {
    hide Tiled, Coalesced, Settled, SizeClass, Geometry, Large, ChunkServed, BlockServed, PagesFor;
    var h, g := s.heap, r.heap;
    var w :| Served(h, size, addr, w, g);
    if Large(size, h.pageSize) {
      BlockHeld(h, size, addr, w.page, g);
    } else {
      ChunkHeld(h, size, addr, w, g);
    }
  }

  lemma BlockHeld(h: Heap, size: nat, addr: nat, p: nat, g: Heap)
    requires Settled(h) && h.pageSize > 0 && BlockServed(h, size, p, PagesFor(size, h.pageSize), g) && p < |h.addrs|
      && addr == h.addrs[p]
    ensures !Holds(h, addr)
    ensures forall x, k :: HeldSize(g, x, k) <==> HeldSize(h, x, k) || (x == addr && k == size)
  {
    hide Settled, SizeClass, Large, PagesFor;
    BlockServedSettled(h, size, p, PagesFor(size, h.pageSize), g);
    assert HoldsBlock(g, addr, p);
    LiveIsNoBlock(g, addr, p);
    forall q | HoldsBlock(h, addr, q) ensures false { BlockAddressUnique(h, p, q); }
    forall x, k ensures HeldSize(g, x, k) <==> HeldSize(h, x, k) || (x == addr && k == size) {
      if HeldSize(g, x, k) && !(x in h.live && h.live[x] == k) {
        var q :| HoldsBlock(g, x, q) && g.blocks[q] == k;
        if q != p { assert HoldsBlock(h, x, q); }
      }
      if HeldSize(h, x, k) && !(x in h.live && h.live[x] == k) {
        var q :| HoldsBlock(h, x, q) && h.blocks[q] == k;
        assert HoldsBlock(g, x, q);
      }
    }
  }

  lemma ChunkHeld(h: Heap, size: nat, addr: nat, w: Service, g: Heap)
    requires Settled(h) && PowerOf2(h.pageSize) && SizeClass(DESC, h.pageSize)
    requires ChunkServed(h, size, w.middle, w.trace, w.zone, addr, g)
    ensures !Holds(h, addr)
    ensures forall x, k :: HeldSize(g, x, k) <==> HeldSize(h, x, k) || (x == addr && k == size)
  {
    hide Settled, SizeClass, ChunkServed;
    ServedSettled(h, size, w.middle, w.trace, w.zone, addr, g);
    SameBlocks(h, g);
    forall p | HoldsBlock(h, addr, p) ensures false { LiveIsNoBlock(g, addr, p); }
  }

  lemma SameBlocks(h: Heap, g: Heap)
    requires g.blocks == h.blocks && g.addrs == h.addrs
    ensures forall x, p :: HoldsBlock(h, x, p) <==> HoldsBlock(g, x, p)
  {
  }

  /** release takes exactly the released block away from the user. */
  lemma ReleaseHolds(s: Snapshot, addr: nat, r: Snapshot)
    requires Sound(s) && Step(s, Released(At(addr)), r)
    ensures !Holds(r.heap, addr)
    ensures forall x, k :: HeldSize(r.heap, x, k) <==> HeldSize(s.heap, x, k) && x != addr
  {
    hide Tiled, Coalesced, Settled, SizeClass, Geometry, Freed;
    var h, g := s.heap, r.heap;
    FreedSettled(h, addr, g);
    if addr in h.live {
      SameBlocks(h, g);
      forall p | HoldsBlock(h, addr, p) ensures false { LiveIsNoBlock(h, addr, p); }
    } else {
      var p :| HoldsBlock(h, addr, p) && g == RevokeBlock(h, p);
      BlockReturned(h, addr, p, g);
    }
  }

  lemma BlockReturned(h: Heap, addr: nat, p: nat, g: Heap)
    requires Settled(h) && HoldsBlock(h, addr, p) && g == RevokeBlock(h, p) && addr !in h.live
    ensures !Holds(g, addr)
    ensures forall x, k :: HeldSize(g, x, k) <==> HeldSize(h, x, k) && x != addr
  {
    hide Settled;
    forall x, q ensures HoldsBlock(g, x, q) <==> HoldsBlock(h, x, q) && x != addr {
      if HoldsBlock(h, x, q) && x == addr { BlockAddressUnique(h, p, q); }
    }
  }

  /** The bytes the user asked for lie in the piece of memory that belongs to the address. */
  lemma HeldBytes(s: Snapshot, addr: nat, size: nat, b: nat) returns (x: Piece)
    requires Sound(s) && HeldSize(s.heap, addr, size) && addr <= b < addr + size
    ensures Occupies(s.heap, s.pages, x, b)
    ensures x == UserChunk(addr) || (x.UserPages? && HoldsBlock(s.heap, addr, x.first))
  {
    hide Tiled, Coalesced, Settled, Geometry;
    if addr in s.heap.live && s.heap.live[addr] == size {
      x := UserChunk(addr);
      LiveBytesInChunk(s.heap, addr, b);
    } else {
      var p :| HoldsBlock(s.heap, addr, p) && s.heap.blocks[p] == size;
      x := UserPages(p);
      BlockBytesInGroup(s.heap, s.pages, p, b);
    }
  }

  lemma LiveBytesInChunk(h: Heap, c: nat, b: nat)
    requires Settled(h) && c in h.live && c <= b < c + h.live[c]
    ensures InChunk(h, c, b)
  {
    hide Inv, FreeIn;
    LiveChunk(h, c);
    HostedIn(h, c);
    assert IsChunkOf(h, h.host[c], c);
  }

  lemma BlockBytesInGroup(h: Heap, p: Pages, s: nat, b: nat)
    requires WellFormed(h, p) && s in h.blocks && s < |h.addrs| && h.addrs[s] <= b < h.addrs[s] + h.blocks[s]
    ensures InGroup(h, p, s, b)
  {
    hide Coalesced, Tiled, Geometry, FreeIn, PageAddress;
    BlockFits(h, s);
    assert IsStart(p, s);
    assert s !in p.free by { UsedNotFree(p, s); }
    PageAddressShift(h.addrs[s], Size(p, s), h.pageSize);
  }

  lemma BlockFits(h: Heap, s: nat)
    requires Settled(h) && s in h.blocks
    ensures s in h.used && h.blocks[s] <= PageAddress(0, h.used[s], h.pageSize)
  {
    hide FreeIn, PageAddress, ZonesOk, HostOk, DescribedOk, PagesApart;
  }

  lemma UsedNotFree(p: Pages, s: nat)
    requires Tiled(p) && s in p.used
    ensures s !in p.free
  {
    assert p.free.Keys !! p.used.Keys;
  }

  lemma PageAddressShift(base: nat, k: nat, m: nat)
    ensures PageAddress(base, k, m) == base + PageAddress(0, k, m)
  {
  }

  /** Blocks the user holds at different addresses do not overlap. */
  lemma HeldApart(s: Snapshot, a: nat, k: nat, b: nat, l: nat)
    requires Sound(s) && HeldSize(s.heap, a, k) && HeldSize(s.heap, b, l) && a < b
    ensures a + k <= b || l == 0
  {
    hide Sound, HeldSize, Occupies;
    if b < a + k && l > 0 {
      var x := HeldBytes(s, a, k, b);
      var y := HeldBytes(s, b, l, b);
      SoundIs(s);
      NoOverlap(s.heap, s.pages, x, y, b);
    }
  }

  lemma SoundIs(s: Snapshot)
    requires Sound(s)
    ensures WellFormed(s.heap, s.pages)
  {
  }

  /** release right after allocate restores the heap and the page partition exactly. */
  lemma CallRoundTrip(s: Snapshot, size: nat, addr: nat, m: Snapshot, r: Snapshot)
    requires Sound(s) && Step(s, Allocated(size, At(addr)), m) && Step(m, Released(At(addr)), r)
    ensures r == s
  {
    hide Coalesced, Tiled, Settled, SizeClass, Geometry, Large, ChunkServed, BlockServed, PagesFor, Freed;
    var w :| Served(s.heap, size, addr, w, m.heap);
    if Large(size, s.heap.pageSize) {
      BlockRoundTrip(s.heap, size, addr, w.page, m.heap, r.heap);
    } else {
      ChunkRoundTrip(s.heap, size, w.middle, w.trace, w.zone, addr, m.heap, r.heap);
    }
    Canonical(s.pages, r.pages);
  }

  lemma BlockRoundTrip(h: Heap, size: nat, addr: nat, p: nat, g: Heap, r: Heap)
    requires Settled(h) && h.pageSize > 0 && BlockServed(h, size, p, PagesFor(size, h.pageSize), g) && p < |h.addrs|
      && addr == h.addrs[p]
    requires Freed(g, addr, r)
    ensures r == h
  {
    hide Settled, SizeClass, Large, PagesFor, Inv;
    BlockServedSettled(h, size, p, PagesFor(size, h.pageSize), g);
    assert HoldsBlock(g, addr, p);
    LiveIsNoBlock(g, addr, p);
    var q :| HoldsBlock(g, addr, q) && r == RevokeBlock(g, q);
    BlockAddressUnique(g, p, q);
    BlockRevoked(h, p, PagesFor(size, h.pageSize), size);
  }

  lemma HoldsSize(h: Heap, addr: nat)
    ensures Holds(h, addr) <==> exists k :: HeldSize(h, addr, k)
  {
    if Holds(h, addr) {
      if addr in h.live {
        assert HeldSize(h, addr, h.live[addr]);
      } else {
        var p :| HoldsBlock(h, addr, p);
        assert HeldSize(h, addr, h.blocks[p]);
      }
    }
  }

  /** The addresses held after a successful allocate, and after a release. */
  lemma HeldAfterCall(s: Snapshot, e: Event, r: Snapshot)
    requires Sound(s) && Step(s, e, r)
    ensures e.Allocated? && e.result.At? ==>
      !Holds(s.heap, e.result.addr) && forall x :: Holds(r.heap, x) <==> Holds(s.heap, x) || x == e.result.addr
    ensures e.Released? && e.ptr.At? ==> forall x :: Holds(r.heap, x) <==> Holds(s.heap, x) && x != e.ptr.addr
    ensures (e.Allocated? && e.result.Null?) || (e.Released? && e.ptr.Null?) ==> r == s
  {
    hide Sound, Step, HeldSize, Holds;
    match e
    case Allocated(size, At(addr)) =>
      AllocateHolds(s, size, addr, r);
      assert HeldSize(r.heap, addr, size);
      forall x ensures Holds(r.heap, x) <==> Holds(s.heap, x) || x == addr {
        HoldsSize(s.heap, x);
        HoldsSize(r.heap, x);
      }
    case Released(At(addr)) =>
      ReleaseHolds(s, addr, r);
      forall x ensures Holds(r.heap, x) <==> Holds(s.heap, x) && x != addr {
        HoldsSize(s.heap, x);
        HoldsSize(r.heap, x);
      }
    case Allocated(_, Null) => NothingDone(s, e, r);
    case Released(Null) => NothingDone(s, e, r);
  }

  lemma NothingDone(s: Snapshot, e: Event, r: Snapshot)
    requires Step(s, e, r) && ((e.Allocated? && e.result.Null?) || (e.Released? && e.ptr.Null?))
    ensures r == s
  {
  }

  // ----- runs

  /** A run: each state follows from the one before by one call. */
  ghost predicate Run(states: seq<Snapshot>, events: seq<Event>)
  {
    && |states| == |events| + 1
    && forall i | 0 <= i < |events| :: Step(states[i], events[i], states[i + 1])
  }

  /** Right after init: the initial zone, and nothing held. */
  ghost predicate Fresh(s: Snapshot)
  {
    Sound(s) && s.heap.live == map[] && s.heap.blocks == map[]
  }

  /** Safety over all runs: every state is sound, whatever calls were made. */
  lemma {:induction false} RunKeeps(states: seq<Snapshot>, events: seq<Event>, i: nat)
    requires Run(states, events) && Fresh(states[0]) && i < |states|
    ensures Sound(states[i]) && SameSetup(states[0], states[i])
    decreases i
  {
    hide Sound, Step;
    FreshIsSound(states[0]);
    if i > 0 {
      RunKeeps(states, events, i - 1);
      assert Step(states[i - 1], events[i - 1], states[i - 1 + 1]);
      StepKeeps(states[i - 1], events[i - 1], states[i]);
    }
  }

  lemma FreshIsSound(s: Snapshot)
    requires Fresh(s)
    ensures Sound(s) && SameSetup(s, s)
  {
    hide Settled;
    InitialIn(s.heap);
  }

  /** In every state of every run the bytes of all pages are partitioned into user blocks, free memory and
      metadata. */
  lemma RunSafety(states: seq<Snapshot>, events: seq<Event>, i: nat, q: nat, b: nat) returns (x: Piece)
    requires Run(states, events) && Fresh(states[0]) && i < |states| && InPage(states[0].heap, q, b)
    ensures Occupies(states[i].heap, states[i].pages, x, b)
    ensures forall y :: Occupies(states[i].heap, states[i].pages, y, b) ==> y == x
  {
    hide WellFormed, Occupies, Step;
    RunKeeps(states, events, i);
    x := EveryByteOwned(states[i].heap, states[i].pages, q, b);
  }

  /** In every state of every run the descriptors of all pages lie in the reserved pages, which therefore no run
      hands out, and those are no more than needed. */
  lemma RunDescriptors(states: seq<Snapshot>, events: seq<Event>, i: nat)
    requires Run(states, events) && Fresh(states[0]) && i < |states| && DescriptorsFit(states[0].heap)
    ensures WellFormed(states[i].heap, states[i].pages) && DescriptorsFit(states[i].heap)
    ensures forall q, b | InDescriptor(states[i].heap, q, b) ::
      Occupies(states[i].heap, states[i].pages, DescriptorPages(states[i].heap.reserved), b)
  {
    hide Step, Occupies, InDescriptor, JustCovers, WellFormed;
    RunKeeps(states, events, i);
    forall q, b | InDescriptor(states[i].heap, q, b)
      ensures Occupies(states[i].heap, states[i].pages, DescriptorPages(states[i].heap.reserved), b)
    {
      DescriptorOwned(states[i].heap, states[i].pages, q, b);
    }
  }

  /** No leak over all runs: whenever the user holds nothing, the heap is back where init left it - only the
      initial zone, nothing in use, and the very same page partition. */
  lemma RunNoLeak(states: seq<Snapshot>, events: seq<Event>, i: nat)
    requires Run(states, events) && Fresh(states[0]) && i < |states|
    requires forall addr :: !Holds(states[i].heap, addr)
    ensures states[i].pages == states[0].pages
    ensures states[i].heap.zones.Keys == {INITIAL} && Unused(states[i].heap.zones[INITIAL])
      && states[i].heap.host == map[]
  {
    hide Step, Inv, FreeIn, Unused, SizeClass, Geometry;
    RunKeeps(states, events, i);
    var s, r := states[0], states[i];
    NothingHeld(r.heap, r.pages);
    NoLeak(r.heap);
    NoLeak(s.heap);
    SameUsed(s, r);
    Canonical(s.pages, r.pages);
  }

  lemma NothingHeld(h: Heap, p: Pages)
    requires WellFormed(h, p) && forall addr :: !Holds(h, addr)
    ensures h.live == map[] && h.blocks == map[]
  {
    hide Inv, Coalesced;
    forall c ensures c !in h.live.Keys {
      assert !Holds(h, c);
    }
    forall q ensures q !in h.blocks.Keys {
      if q in h.blocks {
        BlockIsHeld(h, p, q);
      }
    }
    assert h.live.Keys == {} && h.blocks.Keys == {};
  }

  lemma BlockIsHeld(h: Heap, p: Pages, q: nat)
    requires WellFormed(h, p) && q in h.blocks
    ensures q < |h.addrs| && Holds(h, h.addrs[q])
  {
    hide Inv, Coalesced;
    BlocksUsed(h);
    assert IsStart(p, q);
    Apart(p, q, q);
    assert HoldsBlock(h, h.addrs[q], q);
  }

  lemma SameUsed(s: Snapshot, r: Snapshot)
    requires SameSetup(s, r)
    requires s.heap.used.Keys == {s.heap.reserved, s.heap.zones[INITIAL].page}
    requires r.heap.used.Keys == {r.heap.reserved, r.heap.zones[INITIAL].page}
    requires Settled(s.heap) && Settled(r.heap)
    ensures s.heap.used == r.heap.used
  {
    hide HostOk, DescribedOk, FreeIn, ZoneOk;
    var p := s.heap.zones[INITIAL].page;
    assert s.heap.used[p] == 1 && r.heap.used[p] == 1;
  }
}
