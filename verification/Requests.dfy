/** What a request is owed, stated in free chunks and free pages only: which chunk size it has, when it is
    served, from what, and when it fails. */
module Requests {
  import opened Bits
  import opened HeapModel
  import opened HeapSteps
  import opened ListNode
  import opened PagePartition
  import opened Regions
  import opened Sums

  // ----- the chunk size of a request

  /** cs is the least power of two that is at least the size and at least the minimal chunk. */
  ghost predicate LeastClass(size: nat, cs: nat)
  {
    && PowerOf2(cs) && cs >= size && cs >= MINIMAL_ALLOC
    && forall c: nat | PowerOf2(c) && c >= size && c >= MINIMAL_ALLOC :: cs <= c
  }

  lemma ClassOfLeast(size: nat)
    requires size > 0
    ensures LeastClass(size, ClassOf(size))
    ensures ClassOf(size) == MINIMAL_ALLOC || ClassOf(size) < 2 * size
  {
    hide Pow2, CeilPow2;
    var v := if size > MINIMAL_ALLOC then size else MINIMAL_ALLOC;
    CeilPow2Least(v);
    if size <= MINIMAL_ALLOC { SixteenClass(); }
    forall c: nat | PowerOf2(c) && c >= size && c >= MINIMAL_ALLOC ensures ClassOf(size) <= c {
      var k: nat :| c == Pow2(k);
    }
  }

  lemma SixteenClass()
    ensures CeilPow2(MINIMAL_ALLOC) == MINIMAL_ALLOC
  {
    assert Pow2(4) == 16 && Pow2(3) == 8;
    CeilPow2Is(16, 4);
  }

  lemma LeastClassUnique(size: nat, c: nat, d: nat)
    requires LeastClass(size, c) && LeastClass(size, d)
    ensures c == d
  {
  }

  /** No chunk that a page can be carved into is large enough. */
  ghost predicate NoClass(size: nat, pageSize: nat)
  {
    forall cs: nat | SizeClass(cs, pageSize) :: cs < size
  }

  /** A request takes whole pages exactly if no chunk is large enough. */
  lemma LargeMeans(size: nat, pageSize: nat)
    requires size > 0 && PowerOf2(pageSize)
    ensures Large(size, pageSize) <==> NoClass(size, pageSize)
    ensures !Large(size, pageSize) <==> 2 * ClassOf(size) <= pageSize
  {
    hide ClassOf, PowerOf2;
    ClassOfLeast(size);
    if !Large(size, pageSize) {
      SmallClass(size, pageSize);
    }
  }

  // ----- spare chunks

  /** Some zone of this chunk size has a free chunk. */
  ghost predicate HasFree(h: Heap, cs: nat)
  {
    exists a :: a in h.zones && h.zones[a].chunkSize == cs && h.zones[a].free != []
  }

  /** c is a free chunk of size cs. */
  ghost predicate IsFree(h: Heap, cs: nat, c: nat)
  {
    exists a :: a in h.zones && h.zones[a].chunkSize == cs && c in h.zones[a].free
  }

  /** A free chunk can be handed out without a new zone; one descriptor chunk stays in reserve. */
  ghost predicate Spare(h: Heap, cs: nat)
  {
    if cs == DESC then FreeIn(h.zones, DESC) >= 2 else HasFree(h, cs)
  }

  lemma SpareMeans(h: Heap, cs: nat)
    requires Settled(h)
    ensures Spare(h, cs) <==> !Exhausted(h, cs)
  {
    hide Inv, FreeIn;
    SettledReserve(h);
    HasFreeMeans(h, cs);
  }

  lemma HasFreeMeans(h: Heap, cs: nat)
    ensures HasFree(h, cs) <==> FreeIn(h.zones, cs) > 0
  {
    hide FreeIn;
    if FreeIn(h.zones, cs) > 0 { SomeFree(h.zones, cs); }
    if HasFree(h, cs) {
      var a :| a in h.zones && h.zones[a].chunkSize == cs && h.zones[a].free != [];
      FreeInUpdate(h.zones, a, h.zones[a], cs);
    }
  }

  // ----- new zones

  /** allocateZone with the given number of free pages: when it fails, and how many zones there are after it. */
  ghost predicate ZoneResult(h: Heap, freePages: nat, cs: nat, r: Ptr, g: Heap)
  {
    && (r.Null? <==> freePages == 0 || (freePages == 1 && cs != DESC && FreeIn(h.zones, DESC) == 1))
    && (r.Null? ==> g == h)
    && (r.At? ==>
         && |g.zones| == |h.zones| + (if cs == DESC || FreeIn(h.zones, DESC) >= 2 then 1 else 2)
         && r.addr in g.zones && r.addr !in h.zones && g.zones[r.addr].chunkSize == cs
         && forall b | b in h.zones :: b in g.zones && g.zones[b].page == h.zones[b].page)
  }

  lemma ZoneResultKept(h: Heap, freePages: nat, cs: nat, t: ZoneTrace, r: Ptr, g: Heap)
    requires Settled(h) && SizeClass(cs, h.pageSize) && SizeClass(DESC, h.pageSize)
    requires r.Null? <==> freePages < PagesNeeded(h, cs)
    requires r.Null? ==> g == h
    requires r.At? ==> Obtained(h, cs, t, g, r.addr)
    ensures ZoneResult(h, freePages, cs, r, g)
  {
    hide Inv, FreeIn, SizeClass, Obtained;
    SettledReserve(h);
    if r.At? {
      ObtainedZones(h, cs, t, g, r.addr);
    }
  }

  lemma ObtainedZones(h: Heap, cs: nat, t: ZoneTrace, g: Heap, d: nat)
    requires Settled(h) && SizeClass(cs, h.pageSize) && SizeClass(DESC, h.pageSize) && Obtained(h, cs, t, g, d)
    ensures |g.zones| == |h.zones| + if NeedsDescriptors(h, cs) then 2 else 1
    ensures d in g.zones && d !in h.zones && g.zones[d].chunkSize == cs
    ensures forall b | b in h.zones :: b in g.zones && g.zones[b].page == h.zones[b].page
  {
    hide Inv, FreeIn, SizeClass, WithZone, Pending, Unused;
    SettledReserve(h);
    if NeedsDescriptors(h, cs) {
      var k, e := WithZone(h, t.first, t.page1, DESC), h.zones[t.first].free[0];
      OneMoreZone(h, t.first, t.page1, DESC);
      OneMoreZone(k, e, t.page2, cs);
    } else {
      OneMoreZone(h, t.first, t.page1, cs);
    }
  }

  lemma OneMoreZone(h: Heap, a: nat, p: nat, cs: nat)
    requires Inv(h) && CanHost(h, a, p) && SizeClass(cs, h.pageSize)
    ensures cs > 0
    ensures var m, d := WithZone(h, a, p, cs), h.zones[a].free[0];
      && Inv(m) && m.pageSize == h.pageSize && |m.zones| == |h.zones| + 1
      && d in m.zones && d !in h.zones && m.zones[d].chunkSize == cs
      && forall b | b in h.zones :: b in m.zones && m.zones[b].page == h.zones[b].page
  {
    hide Inv, SizeClass, WithZone, Pending, Unused;
    WithZoneKeeps(h, a, p, cs);
    var m, d := WithZone(h, a, p, cs), h.zones[a].free[0];
    assert |m.zones| == |m.zones.Keys| && |h.zones| == |h.zones.Keys|;
  }

  // ----- allocate

  /** allocate for a chunk of size cs, from the heap h and the pages p to g and q. */
  ghost predicate SmallPromise(h: Heap, p: Pages, cs: nat, ptr: Ptr, g: Heap, q: Pages)
  {
    && (ptr.Null? <==>
         && !Spare(h, cs)
         && (Sum(p.free) == 0 || (Sum(p.free) == 1 && cs != DESC && FreeIn(h.zones, DESC) == 1)))
    && (Spare(h, cs) ==> q == p && g.zones.Keys == h.zones.Keys && ptr.At? && IsFree(h, cs, ptr.addr))
    && (ptr.At? && !Spare(h, cs) ==>
         |g.zones| == |h.zones| + if cs == DESC || FreeIn(h.zones, DESC) >= 2 then 1 else 2)
    && (ptr.At? ==> exists a :: a in g.zones && g.zones[a].chunkSize == cs && ptr.addr in g.zones[a].chunks)
  }

  /** The k pages at page s went from free to used, and addr is their address. */
  ghost predicate TookPages(h: Heap, p: Pages, addr: nat, s: nat, k: nat, q: Pages)
  {
    s < |h.addrs| && h.addrs[s] == addr && s !in p.used && q.used == p.used[s := k]
  }

  /** k pages hold size bytes, and one page less does not. */
  ghost predicate JustEnough(k: nat, pageSize: nat, size: nat)
  {
    size <= k * pageSize < size + pageSize
  }

  /** allocate for whole pages: a group of just enough pages, unless every free group is too small. */
  ghost predicate LargePromise(h: Heap, p: Pages, size: nat, ptr: Ptr, g: Heap, q: Pages)
  {
    && (ptr.Null? <==> forall f | f in p.free :: p.free[f] * h.pageSize < size)
    && (ptr.At? ==>
         && g.zones == h.zones
         && exists s, k :: TookPages(h, p, ptr.addr, s, k, q) && JustEnough(k, h.pageSize, size))
  }

  /** What allocate does for a request: from the heap h and the pages p to g and q. */
  ghost predicate Promise(h: Heap, p: Pages, size: nat, ptr: Ptr, g: Heap, q: Pages)
  {
    && (size == 0 ==> ptr.Null?)
    && (ptr.Null? ==> g == h && q == p)
    && (size > 0 && NoClass(size, h.pageSize) ==> LargePromise(h, p, size, ptr, g, q))
    && forall cs: nat | size > 0 && LeastClass(size, cs) && 2 * cs <= h.pageSize :: SmallPromise(h, p, cs, ptr, g, q)
  }

  lemma EnoughPages(size: nat, pageSize: nat)
    requires size > 0 && pageSize > 0
    ensures JustEnough(PagesFor(size, pageSize), pageSize, size)
    ensures forall f: nat :: f < PagesFor(size, pageSize) <==> f * pageSize < size
  {
    hide PagesFor;
    PagesForCovers(size, pageSize);
    var k := PagesFor(size, pageSize);
    JustEnoughPages(k, pageSize, size);
    forall f: nat ensures f < k <==> f * pageSize < size {
      FewerPages(f, k, pageSize, size);
    }
  }

  lemma JustEnoughPages(k: nat, pageSize: nat, size: nat)
    requires Covers(k, pageSize, size)
    ensures JustEnough(k, pageSize, size)
  {
    assert k * pageSize == (k - 1) * pageSize + pageSize;
  }

  lemma FewerPages(f: nat, k: nat, pageSize: nat, size: nat)
    requires JustEnough(k, pageSize, size)
    ensures f < k <==> f * pageSize < size
  {
    if f < k {
      assert (k - 1 - f) * pageSize >= 0;
      assert (k - 1 - f) * pageSize == k * pageSize - pageSize - f * pageSize;
    } else {
      assert (f - k) * pageSize >= 0;
      assert (f - k) * pageSize == f * pageSize - k * pageSize;
    }
  }

  lemma LargeKept(h: Heap, p: Pages, size: nat, ptr: Ptr, w: Service, g: Heap, q: Pages)
    requires size > 0 && h.pageSize > 0 && Large(size, h.pageSize) && p.used == h.used && q.used == g.used
    requires ptr.Null? <==> CannotServe(h, p, size)
    requires ptr.At? ==> Served(h, size, ptr.addr, w, g)
    ensures LargePromise(h, p, size, ptr, g, q)
  {
    hide Large, JustEnough, PagesFor;
    EnoughPages(size, h.pageSize);
    if ptr.At? {
      assert TookPages(h, p, ptr.addr, w.page, PagesFor(size, h.pageSize), q);
    }
  }

  lemma SmallKept(h: Heap, p: Pages, size: nat, ptr: Ptr, w: Service, g: Heap, q: Pages)
    requires Settled(h) && SizeClass(DESC, h.pageSize) && PowerOf2(h.pageSize)
    requires Tiled(p) && Coalesced(p) && Tiled(q) && Coalesced(q) && q.n == p.n && q.borders == p.borders
    requires size > 0 && h.pageSize > 0 && !Large(size, h.pageSize) && p.used == h.used && q.used == g.used
    requires ptr.Null? <==> CannotServe(h, p, size)
    requires ptr.At? ==> Served(h, size, ptr.addr, w, g)
    ensures SmallPromise(h, p, ClassOf(size), ptr, g, q)
  {
    hide Inv, Settled, FreeIn, SizeClass, ClassOf, Large, Obtained, Tiled, Coalesced, Exhausted, Spare;
    SpareMeans(h, ClassOf(size));
    SettledReserve(h);
    if ptr.At? {
      var c, a, m := ptr.addr, w.zone, w.middle;
      ServedSettled(h, size, m, w.trace, a, c, g);
      SettledReserve(g);
      HostedIn(g, c);
      TakenZones(m, a, size);
      SmallClass(size, h.pageSize);
      if Exhausted(h, ClassOf(size)) {
        ObtainedZones(h, ClassOf(size), w.trace, m, a);
      } else {
        assert IsFree(h, ClassOf(size), c);
        Canonical(p, q);
      }
    }
  }

  lemma TakenZones(m: Heap, a: nat, size: nat)
    requires a in m.zones && m.zones[a].free != []
    ensures var g := Grant(Take(m, a), m.zones[a].free[0], size);
      g.zones.Keys == m.zones.Keys && |g.zones| == |m.zones| && g.used == m.used
  {
    var g := Grant(Take(m, a), m.zones[a].free[0], size);
    assert g.zones.Keys == m.zones.Keys;
    assert |g.zones| == |g.zones.Keys| && |m.zones| == |m.zones.Keys|;
  }

  lemma PromiseKept(h: Heap, p: Pages, size: nat, ptr: Ptr, w: Service, g: Heap, q: Pages)
    requires Settled(h) && SizeClass(DESC, h.pageSize) && PowerOf2(h.pageSize) && h.pageSize > 0
    requires Tiled(p) && Coalesced(p) && Tiled(q) && Coalesced(q) && q.n == p.n && q.borders == p.borders
    requires p.used == h.used && q.used == g.used
    requires ptr.Null? <==> CannotServe(h, p, size)
    requires ptr.Null? ==> g == h && q == p
    requires ptr.At? ==> Served(h, size, ptr.addr, w, g)
    ensures Promise(h, p, size, ptr, g, q)
  {
    hide Settled, SizeClass, ClassOf, Tiled, Coalesced, NoClass, LargePromise, SmallPromise, LeastClass, Large,
         ChunkServed, BlockServed, Exhausted, PagesFor;
    if size > 0 {
      LargeMeans(size, h.pageSize);
      ClassOfLeast(size);
      if Large(size, h.pageSize) {
        LargeKept(h, p, size, ptr, w, g, q);
      } else {
        SmallKept(h, p, size, ptr, w, g, q);
      }
      forall cs: nat | LeastClass(size, cs) && 2 * cs <= h.pageSize ensures SmallPromise(h, p, cs, ptr, g, q) {
        LeastClassUnique(size, cs, ClassOf(size));
      }
    }
  }
}
