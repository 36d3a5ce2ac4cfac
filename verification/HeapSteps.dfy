/** Whole operations on the abstract heap: the deallocation cascade, zone allocation with its roll-back,
    and what every run of the allocator keeps. */
module HeapSteps {
  import opened Bits
  import opened HeapModel
  import opened ListNode
  import opened PagePartition
  import opened Regions
  import opened Sums

  // ----- counting free chunks

  lemma FreeInUpdate(zones: map<nat, Zone>, a: nat, z: Zone, chunkSize: nat)
    requires a in zones && z.chunkSize == zones[a].chunkSize
    ensures FreeIn(zones[a := z], chunkSize) + (if z.chunkSize == chunkSize then |zones[a].free| else 0)
         == FreeIn(zones, chunkSize) + (if z.chunkSize == chunkSize then |z.free| else 0)
    ensures z.chunkSize == chunkSize ==> FreeIn(zones, chunkSize) >= |zones[a].free|
  {
    var m, m' := FreeCounts(zones, chunkSize), FreeCounts(zones[a := z], chunkSize);
    if z.chunkSize == chunkSize {
      assert m' == m[a := |z.free|];
      SumUpdate(m, a, |z.free|);
      SumAtLeast(m, a);
    } else {
      assert m' == m;
    }
  }

  lemma FreeInInsert(zones: map<nat, Zone>, a: nat, z: Zone, chunkSize: nat)
    requires a !in zones
    ensures FreeIn(zones[a := z], chunkSize) == FreeIn(zones, chunkSize) + if z.chunkSize == chunkSize then |z.free|
      else 0
  {
    var m, m' := FreeCounts(zones, chunkSize), FreeCounts(zones[a := z], chunkSize);
    if z.chunkSize == chunkSize {
      assert m' == m[a := |z.free|];
      SumInsert(m, a, |z.free|);
    } else {
      assert m' == m;
    }
  }

  lemma FreeInRemove(zones: map<nat, Zone>, a: nat, chunkSize: nat)
    requires a in zones
    ensures FreeIn(zones - {a}, chunkSize) + (if zones[a].chunkSize == chunkSize then |zones[a].free| else 0)
      == FreeIn(zones, chunkSize)
  {
    var m, m' := FreeCounts(zones, chunkSize), FreeCounts(zones - {a}, chunkSize);
    if zones[a].chunkSize == chunkSize {
      assert m' == m - {a};
      SumRemove(m, a);
    } else {
      assert m' == m;
    }
  }

  /** A positive counter means that some zone of the bucket has a free chunk. */
  lemma SomeFree(zones: map<nat, Zone>, chunkSize: nat)
    requires FreeIn(zones, chunkSize) > 0
    ensures exists a :: a in zones && zones[a].chunkSize == chunkSize && zones[a].free != []
  {
    var m := FreeCounts(zones, chunkSize);
    SumPositive(m);
    var a :| a in m && m[a] > 0;
    assert a in zones && zones[a].chunkSize == chunkSize && zones[a].free != [];
  }

  // ----- deallocateChunk

  /** Zone b of the heap r is the zone b of h up to its free list. */
  ghost predicate SameZone(h: Heap, r: Heap, b: nat)
    requires b in h.zones && b in r.zones
  {
    r.zones[b].(free := []) == h.zones[b].(free := [])
  }

  /** r is h after some zones disappeared together with the chunk c: exactly c and the descriptors of the
      removed zones are no longer in use, and exactly the pages of the removed zones are returned. */
  ghost predicate Shrunk(h: Heap, r: Heap, c: nat)
  {
    && r.zones.Keys <= h.zones.Keys
    && (forall b | b in r.zones :: SameZone(h, r, b))
    && r.host == h.host - ({c} + (h.zones.Keys - r.zones.Keys))
    && (forall p :: p in r.used <==> p in h.used && forall a | a in h.zones && a !in r.zones :: h.zones[a].page != p)
    && (forall p | p in r.used :: r.used[p] == h.used[p])
    && r.live == h.live && r.blocks == h.blocks && r.reserved == h.reserved
    && r.addrs == h.addrs && r.pageSize == h.pageSize
    && INITIAL in r.zones
  }

  /** deallocateChunk: the chunk is given back; a zone that becomes unused is removed, its page returned
      and its descriptor deallocated in turn. */
  ghost function Dealloc(h: Heap, c: nat): (r: Heap)
    requires Inv(h) && c in Pending(h)
    ensures Inv(r) && Pending(r) == Pending(h) - {c}
    decreases |h.zones|
  {
    GiveKeeps(h, c);
    var a := h.host[c];
    var g := Give(h, c);
    if a != INITIAL && Unused(g.zones[a]) then
      DeathKeeps(g, a);
      DeathShrinks(g, a);
      PendingSwap(Pending(h), c, a);
      Dealloc(Death(g, a), a)
    else g
  }

  lemma DeathShrinks(g: Heap, a: nat)
    requires a in g.zones
    ensures |Death(g, a).zones| < |g.zones|
  {
    assert Death(g, a).zones.Keys == g.zones.Keys - {a};
    assert |g.zones.Keys - {a}| == |g.zones.Keys| - 1;
  }

  lemma PendingSwap(s: set<nat>, c: nat, a: nat)
    requires a !in s
    ensures s - {c} + {a} - {a} == s - {c}
  {
  }

  lemma GiveShrunk(h: Heap, c: nat)
    requires Inv(h) && c in Pending(h)
    ensures Shrunk(h, Give(h, c), c)
  {
    hide Inv, Pending, ZonesOk, HostOk, DescribedOk, UsedOk;
    PendingHosted(h, c);
    var g := Give(h, c);
    assert g.zones.Keys == h.zones.Keys;
    assert {c} + (h.zones.Keys - g.zones.Keys) == {c};
    forall b | b in g.zones ensures SameZone(h, g, b) { }
    forall p ensures p in g.used <==>
        p in h.used && forall a | a in h.zones && a !in g.zones :: h.zones[a].page != p { }
  }

  lemma PendingHosted(h: Heap, c: nat)
    requires Inv(h) && c in Pending(h)
    ensures c in h.host && c !in h.live && c !in h.zones && h.host[c] in h.zones && INITIAL in h.zones
  {
  }

  lemma MinusTwice<V>(m: map<nat, V>, a: set<nat>, b: set<nat>)
    ensures m - a - b == m - (a + b)
  {
  }

  lemma CascadeShrunk(h: Heap, g: Heap, a: nat, r: Heap, c: nat)
    requires Inv(h) && c in Pending(h) && g == Give(h, c) && a == h.host[c] && a != INITIAL
    requires a in g.zones && Shrunk(Death(g, a), r, a)
    ensures Shrunk(h, r, c)
  {
    hide Inv, Pending;
    PendingHosted(h, c);
    var d := Death(g, a);
    assert g.zones.Keys == h.zones.Keys && d.zones.Keys == h.zones.Keys - {a};
    assert h.zones.Keys - r.zones.Keys == {a} + (d.zones.Keys - r.zones.Keys);
    MinusTwice(h.host, {c}, {a} + (d.zones.Keys - r.zones.Keys));
    assert g.zones[a].page == h.zones[a].page;
    forall b | b in r.zones ensures SameZone(h, r, b) {
      assert SameZone(d, r, b);
    }
    forall p
      ensures p in r.used <==> p in h.used && forall b | b in h.zones && b !in r.zones :: h.zones[b].page != p
    {
      assert forall b | b in d.zones :: d.zones[b].page == h.zones[b].page;
    }
  }

  /** What the cascade removes, and that it keeps every other zone busy and a descriptor chunk in reserve. */
  lemma {:induction false} DeallocShrinks(h: Heap, c: nat)
    requires Inv(h) && c in Pending(h)
    ensures Shrunk(h, Dealloc(h, c), c)
    ensures AllBusy(h) ==> AllBusy(Dealloc(h, c))
    ensures FreeIn(h.zones, DESC) >= 1 || h.zones[h.host[c]].chunkSize == DESC
      ==> FreeIn(Dealloc(h, c).zones, DESC) >= 1
    decreases |h.zones|
  {
    hide Shrunk, Inv, FreeIn;
    GiveKeeps(h, c);
    HostedIn(h, c);
    var a := h.host[c];
    var g := Give(h, c);
    var z := g.zones[a];
    FreeInUpdate(h.zones, a, z, DESC);
    if a != INITIAL && Unused(z) {
      DeathKeeps(g, a);
      DeathShrinks(g, a);
      var d := Death(g, a);
      DeallocShrinks(d, a);
      CascadeShrunk(h, g, a, Dealloc(d, a), c);
    } else {
      GiveShrunk(h, c);
    }
  }

  lemma HostedIn(h: Heap, c: nat)
    requires Inv(h) && c in h.host
    ensures h.host[c] in h.zones && c in h.zones[h.host[c]].chunks && INITIAL in h.zones
    ensures h.zones[INITIAL].chunkSize == DESC
  {
  }

  // ----- roll-back

  /** Giving a just taken chunk back restores the heap, free-list order included. */
  lemma TakeUndone(h: Heap, a: nat)
    requires Inv(h) && AllBusy(h) && a in h.zones && h.zones[a].free != []
    ensures var c := h.zones[a].free[0];
      Inv(Take(h, a)) && c in Pending(Take(h, a)) && Dealloc(Take(h, a), c) == h
  {
    hide Inv;
    TakeKeeps(h, a);
    var z := h.zones[a];
    var c := z.free[0];
    var g := Take(h, a);
    assert [c] + z.free[1..] == z.free;
    GiveTake(h, a);
  }

  lemma GiveTake(h: Heap, a: nat)
    requires a in h.zones && h.zones[a].free != [] && h.zones[a].free[0] !in h.host
    ensures Give(Take(h, a), h.zones[a].free[0]) == h
  {
    var z := h.zones[a];
    var c := z.free[0];
    assert [c] + z.free[1..] == z.free;
    var g := Give(Take(h, a), c);
    assert g.host == h.host;
    assert g.zones == h.zones;
  }

  /** Taking the first chunk of a zone d that was just created and giving it back at once empties d, which
      returns its page and then its descriptor: the cascade ends where deallocating the descriptor ends. */
  lemma ZoneUndone(h: Heap, a: nat, p: nat, chunkSize: nat)
    requires Inv(h) && a in h.zones && h.zones[a].free != [] && h.zones[a].chunkSize == DESC
    requires p < |h.addrs| && p !in h.used && SizeClass(chunkSize, h.pageSize)
    ensures chunkSize > 0
    ensures var t, d := Take(h, a), h.zones[a].free[0];
      && Inv(t) && d in Pending(t) && d in t.host && t.host[d] in t.zones
      && var m := Birth(t, d, p, chunkSize);
      && Inv(m) && d in m.zones && m.zones[d].free != []
      && var c := m.zones[d].free[0];
      && Inv(Take(m, d)) && c in Pending(Take(m, d)) && Dealloc(Take(m, d), c) == Dealloc(t, d)
  {
    hide Inv, SizeClass;
    TakeKeeps(h, a);
    var t := Take(h, a);
    var d := h.zones[a].free[0];
    BirthKeeps(t, d, p, chunkSize);
    var m := Birth(t, d, p, chunkSize);
    TakeKeeps(m, d);
    GiveTake(m, d);
    var c := m.zones[d].free[0];
    assert Give(Take(m, d), c) == m;
    BirthUndone(t, d, p, chunkSize);
    DeathKeeps(m, d);
  }

  lemma BirthUndone(t: Heap, d: nat, p: nat, chunkSize: nat)
    requires p < |t.addrs| && d in t.host && t.host[d] in t.zones && d !in t.zones && p !in t.used && chunkSize > 0
    ensures Death(Birth(t, d, p, chunkSize), d) == t
  {
    hide Carved, ChunkSet;
    var m := Birth(t, d, p, chunkSize);
    assert m.zones - {d} == t.zones;
    assert m.used - {p} == t.used;
  }

  // ----- no leak

  lemma {:induction false} Deepest(zones: map<nat, Zone>) returns (a: nat)
    requires zones != map[]
    ensures a in zones && forall b | b in zones :: zones[b].depth <= zones[a].depth
    decreases |zones|
  {
    a :| a in zones;
    var rest := zones - {a};
    var first := a;
    if rest != map[] {
      assert rest.Keys == zones.Keys - {a};
      assert |zones.Keys - {a}| == |zones.Keys| - 1;
      var b := Deepest(rest);
      if rest[b].depth > zones[a].depth {
        a := b;
      }
    }
    forall b | b in zones ensures zones[b].depth <= zones[a].depth {
      if b != first { assert b in rest; }
    }
  }

  lemma BusyChunk(h: Heap, a: nat) returns (c: nat)
    requires Inv(h) && AllBusy(h) && a in h.zones && a != INITIAL
    ensures c in h.host && h.host[c] == a
  {
    hide ZoneOk, UsedOk, DescribedOk, Distinct;
    ZoneFacts(h, h.zones[a]);
    c :| c in h.zones[a].chunks && c !in h.zones[a].free;
  }

  /** If any zone but the initial one exists, the user holds a chunk: hosting is well-founded, so a deepest
      zone hosts no descriptor, and it is kept only because one of its chunks is in use. */
  lemma ZonesServeUser(h: Heap, a: nat) returns (deepest: nat, c: nat)
    requires Settled(h) && a in h.zones && a != INITIAL
    ensures c in h.live && c in h.host && h.host[c] == deepest
  {
    hide ZonesOk, HostOk, UsedOk, DescribedOk, PagesApart;
    var others := h.zones - {INITIAL};
    assert a in others;
    deepest := Deepest(others);
    c := BusyChunk(h, deepest);
    assert c !in Pending(h);
    InUsePositive(h, c);
    if c in others {
      assert others[c].depth <= others[deepest].depth;
      DeeperThanHost(h, c);
    }
  }

  lemma DeeperThanHost(h: Heap, a: nat)
    requires DescribedOk(h) && a in h.zones && a != INITIAL
    ensures a in h.host && h.host[a] in h.zones && h.zones[h.host[a]].depth < h.zones[a].depth
  {
    assert a in h.host;
  }

  /** No leak: when the user holds nothing, only the initial zone is left, all its chunks are free and
      only the descriptor pages and its own page are used. Hosting is well-founded, so a deepest zone
      other than the initial one would hold a chunk that nobody uses. */
  lemma NoLeak(h: Heap)
    requires Settled(h) && h.live == map[] && h.blocks == map[]
    ensures h.zones.Keys == {INITIAL} && Unused(h.zones[INITIAL]) && h.host == map[]
    ensures h.used.Keys == {h.reserved, h.zones[INITIAL].page}
  {
    hide ZoneOk, Distinct;
    forall a ensures a in h.zones <==> a == INITIAL {
      if a in h.zones && a != INITIAL {
        var d, c := ZonesServeUser(h, a);
      }
    }
    assert h.zones.Keys == {INITIAL};
    forall c | c in h.zones[INITIAL].chunks ensures c in h.zones[INITIAL].free || c in h.host { }
    forall c ensures c !in h.host {
      if c in h.host {
        InUsePositive(h, c);
      }
    }
    assert h.host.Keys == {};
    ZoneFacts(h, h.zones[INITIAL]);
    forall p ensures p in h.used.Keys <==> p in {h.reserved, h.zones[INITIAL].page} {
      if p in h.used && IsZonePage(h, p) && p != h.reserved {
        var a :| a in h.zones && h.zones[a].page == p;
      }
    }
  }

  // ----- allocation

  /** The user receives the chunk c for a request of size bytes, or hands it back. */
  ghost function Grant(h: Heap, c: nat, size: nat): Heap
  {
    h.(live := h.live[c := size])
  }

  ghost function Revoke(h: Heap, c: nat): Heap
  {
    h.(live := h.live - {c})
  }

  /** The user receives a group of k pages at p, or hands it back. */
  ghost function GrantBlock(h: Heap, p: nat, k: nat, size: nat): Heap
  {
    h.(used := h.used[p := k], blocks := h.blocks[p := size])
  }

  ghost function RevokeBlock(h: Heap, p: nat): Heap
  {
    h.(used := h.used - {p}, blocks := h.blocks - {p})
  }

  /** Page p can be taken for a new zone that is described by the first free chunk of the zone at a. */
  ghost predicate CanHost(h: Heap, a: nat, p: nat)
  {
    && a in h.zones && h.zones[a].chunkSize == DESC && h.zones[a].free != []
    && p < |h.addrs| && p !in h.used
  }

  /** The heap after a zone of the given chunk size was described in zone a and carved from page p. */
  ghost function WithZone(h: Heap, a: nat, p: nat, chunkSize: nat): Heap
    requires CanHost(h, a, p) && chunkSize > 0
  {
    Birth(Take(h, a), h.zones[a].free[0], p, chunkSize)
  }

  lemma WithZoneKeeps(h: Heap, a: nat, p: nat, chunkSize: nat)
    requires Inv(h) && CanHost(h, a, p) && SizeClass(chunkSize, h.pageSize)
    ensures chunkSize > 0 && Inv(WithZone(h, a, p, chunkSize))
    ensures var d, m := h.zones[a].free[0], WithZone(h, a, p, chunkSize);
      && d !in h.zones && d != INITIAL && m.zones.Keys == h.zones.Keys + {d} && Pending(m) == Pending(h)
      && m.zones[d].chunkSize == chunkSize && Unused(m.zones[d]) && |m.zones[d].free| >= 2
      && (forall b | b in h.zones && b != a :: m.zones[b] == h.zones[b])
      && m.zones[a] == h.zones[a].(free := h.zones[a].free[1..]) && !Unused(m.zones[a])
      && m.live == h.live && m.blocks == h.blocks && m.addrs == h.addrs && m.pageSize == h.pageSize
      && m.used == h.used[p := 1] && m.reserved == h.reserved
      && d in m.host
  {
    hide Inv, SizeClass;
    TakeKeeps(h, a);
    FreshChunk(h, a, h.zones[a].free[0]);
    BirthKeeps(Take(h, a), h.zones[a].free[0], p, chunkSize);
  }

  lemma WithZoneCounts(h: Heap, a: nat, p: nat, chunkSize: nat, cs: nat)
    requires Inv(h) && CanHost(h, a, p) && SizeClass(chunkSize, h.pageSize)
    ensures chunkSize > 0
    ensures FreeIn(WithZone(h, a, p, chunkSize).zones, cs) + (if cs == DESC then 1 else 0)
         == FreeIn(h.zones, cs) + if cs == chunkSize
             then |WithZone(h, a, p, chunkSize).zones[h.zones[a].free[0]].free| else 0
  {
    hide Inv, FreeIn, SizeClass;
    WithZoneKeeps(h, a, p, chunkSize);
    var t := Take(h, a);
    FreeInUpdate(h.zones, a, t.zones[a], cs);
    var m := WithZone(h, a, p, chunkSize);
    var d := h.zones[a].free[0];
    FreeInInsert(t.zones, d, m.zones[d], cs);
    assert m.zones == t.zones[d := m.zones[d]];
  }

  /** The zone d has no chunk in use yet; everything else is as between two calls. */
  ghost predicate Expecting(h: Heap, d: nat)
  {
    && Inv(h) && Pending(h) == {} && d in h.zones && d != INITIAL && Unused(h.zones[d]) && |h.zones[d].free| >= 2
    && (forall a | a in h.zones && a != INITIAL && a != d :: !Unused(h.zones[a]))
    && FreeIn(h.zones, DESC) >= if h.zones[d].chunkSize == DESC then 2 else 1
  }

  /** One level of allocateZone. */
  lemma ZoneObtained(h: Heap, a: nat, p: nat, chunkSize: nat)
    requires Inv(h) && Pending(h) == {} && CanHost(h, a, p) && SizeClass(chunkSize, h.pageSize)
    requires forall b | b in h.zones && b != INITIAL && b != a :: !Unused(h.zones[b])
    requires FreeIn(h.zones, DESC) >= if chunkSize == DESC then 1 else 2
    ensures chunkSize > 0 && Expecting(WithZone(h, a, p, chunkSize), h.zones[a].free[0])
  {
    hide Inv, FreeIn, SizeClass, CanHost, WithZone, Pending, Unused;
    WithZoneKeeps(h, a, p, chunkSize);
    WithZoneCounts(h, a, p, chunkSize, DESC);
  }

  /** A chunk of the zone at a goes to the user. */
  lemma ChunkGranted(h: Heap, a: nat, size: nat)
    requires Inv(h) && Pending(h) == {} && a in h.zones && h.zones[a].free != [] && size <= h.zones[a].chunkSize
    requires forall b | b in h.zones && b != INITIAL && b != a :: !Unused(h.zones[b])
    requires FreeIn(h.zones, DESC) >= if h.zones[a].chunkSize == DESC then 2 else 1
    ensures var c := h.zones[a].free[0];
      Settled(Grant(Take(h, a), c, size)) && c !in h.live && c !in h.host
  {
    hide FreeIn, Inv, Unused;
    TakeKeeps(h, a);
    var c := h.zones[a].free[0];
    FreshChunk(h, a, c);
    var t := Take(h, a);
    FreeInUpdate(h.zones, a, t.zones[a], DESC);
    assert t.host[c] == a && t.zones[a].chunkSize == h.zones[a].chunkSize;
    GrantKeeps(t, c, size);
    forall b | b in t.zones && b != INITIAL ensures !Unused(t.zones[b]) {
      if b != a { assert t.zones[b] == h.zones[b]; }
    }
  }

  /** Granting and revoking do not touch the zones. */
  lemma SameZonesOk(h: Heap, g: Heap)
    requires ZonesOk(h) && HostOk(h)
    requires g.zones == h.zones && g.host == h.host && g.addrs == h.addrs && g.pageSize == h.pageSize
    ensures ZonesOk(g) && HostOk(g)
  {
    hide ZoneOk;
    forall b | b in g.zones ensures ZoneOk(g, g.zones[b]) { SameZoneOk(h, g, h.zones[b]); }
  }

  lemma SameDescribed(h: Heap, g: Heap)
    requires DescribedOk(h)
    requires g.zones == h.zones && g.host == h.host
    requires forall c | c in g.live :: if c in h.live then g.live[c] == h.live[c]
      else c in h.host && h.host[c] in h.zones && c !in h.zones && g.live[c] <= h.zones[h.host[c]].chunkSize
    ensures DescribedOk(g)
  {
  }

  lemma GrantKeeps(t: Heap, c: nat, size: nat)
    requires Inv(t) && c in Pending(t) && t.host[c] in t.zones && size <= t.zones[t.host[c]].chunkSize
    ensures Inv(Grant(t, c, size)) && Pending(Grant(t, c, size)) == Pending(t) - {c}
  {
    hide ZonesOk, HostOk, DescribedOk, UsedOk, PagesApart;
    var g := Grant(t, c, size);
    SameZonePages(t, g);
    SameZonesOk(t, g);
    SameDescribed(t, g);
  }

  lemma RevokeKeeps(h: Heap, c: nat)
    requires Inv(h) && c in h.live
    ensures Inv(Revoke(h, c)) && Pending(Revoke(h, c)) == Pending(h) + {c}
  {
    hide ZonesOk, HostOk, DescribedOk, UsedOk, PagesApart;
    var g := Revoke(h, c);
    SameZonePages(h, g);
    SameZonesOk(h, g);
    SameDescribed(h, g);
    LiveChunk(h, c);
  }

  lemma LiveChunk(h: Heap, c: nat)
    requires Inv(h) && c in h.live
    ensures c in h.host && c !in h.zones && c != INITIAL && h.host[c] in h.zones
      && h.live[c] <= h.zones[h.host[c]].chunkSize
  {
    hide ZonesOk, UsedOk, PagesApart;
    assert c in h.host;
    InUsePositive(h, c);
    if c in h.zones { DescribedNotLive(h, c); }
  }

  lemma DescribedNotLive(h: Heap, a: nat)
    requires DescribedOk(h) && a in h.zones && a != INITIAL
    ensures a in h.host && a !in h.live
  {
    assert a in h.host;
  }

  /** release of a chunk: from one settled heap to another. */
  lemma ChunkReleased(h: Heap, c: nat)
    requires Settled(h) && c in h.live
    ensures var r := Revoke(h, c);
      Inv(r) && c in Pending(r) && Settled(Dealloc(r, c)) && Shrunk(r, Dealloc(r, c), c)
  {
    hide Inv, FreeIn;
    RevokeKeeps(h, c);
    var r := Revoke(h, c);
    DeallocShrinks(r, c);
  }

  lemma BlockGranted(h: Heap, p: nat, k: nat, size: nat)
    requires Settled(h) && p !in h.used && size <= PageAddress(0, k, h.pageSize)
    ensures Settled(GrantBlock(h, p, k, size))
  {
    hide ZonesOk, HostOk, DescribedOk, UsedOk, PagesApart, FreeIn;
    var g := GrantBlock(h, p, k, size);
    SameZonesOk(h, g);
    SameDescribed(h, g);
    GrantBlockUsedOk(h, p, k, size);
  }

  lemma GrantBlockUsedOk(h: Heap, p: nat, k: nat, size: nat)
    requires UsedOk(h) && p !in h.used && size <= PageAddress(0, k, h.pageSize)
    ensures UsedOk(GrantBlock(h, p, k, size))
  {
    var g := GrantBlock(h, p, k, size);
    forall q | q in g.used ensures q == g.reserved || q in g.blocks || IsZonePage(g, q) {
      if q != p && IsZonePage(h, q) {
        var a :| a in h.zones && h.zones[a].page == q;
        assert g.zones[a].page == q;
      }
    }
  }

  lemma BlockReleased(h: Heap, p: nat)
    requires Settled(h) && p in h.blocks
    ensures p in h.used && p != h.reserved && Settled(RevokeBlock(h, p))
  {
    hide ZonesOk, HostOk, DescribedOk, UsedOk, PagesApart, FreeIn;
    var g := RevokeBlock(h, p);
    SameZonesOk(h, g);
    SameDescribed(h, g);
    RevokeBlockUsedOk(h, p);
  }

  lemma RevokeBlockUsedOk(h: Heap, p: nat)
    requires UsedOk(h) && p in h.blocks
    ensures p in h.used && p != h.reserved && UsedOk(RevokeBlock(h, p))
  {
    var g := RevokeBlock(h, p);
    forall q | q in g.used ensures q == g.reserved || q in g.blocks || IsZonePage(g, q) {
      if IsZonePage(h, q) {
        var a :| a in h.zones && h.zones[a].page == q;
        assert g.zones[a].page == q;
      }
    }
  }

  // ----- allocateZone

  /** The descriptor chunk taken from the zone at a was deallocated again. */
  ghost predicate RolledBack(h: Heap, a: nat, r: Heap)
  {
    && Inv(h) && a in h.zones && h.zones[a].free != []
    && Inv(Take(h, a)) && h.zones[a].free[0] in Pending(Take(h, a))
    && r == Dealloc(Take(h, a), h.zones[a].free[0])
  }

  /** One more zone: r is h with a zone described in the zone at a and carved from page p. */
  ghost predicate Grown(h: Heap, a: nat, p: nat, chunkSize: nat, r: Heap)
  {
    Inv(h) && chunkSize > 0 && CanHost(h, a, p) && r == WithZone(h, a, p, chunkSize)
  }

  lemma RolledBackIntro(h: Heap, a: nat, r: Heap)
    requires Inv(h) && a in h.zones && h.zones[a].free != []
    requires Inv(Take(h, a)) && h.zones[a].free[0] in Pending(Take(h, a))
      && r == Dealloc(Take(h, a), h.zones[a].free[0])
    ensures RolledBack(h, a, r)
  {
  }

  lemma GrownIntro(h: Heap, a: nat, p: nat, chunkSize: nat, r: Heap)
    requires Inv(h) && chunkSize > 0 && a in h.zones && h.zones[a].free != [] && h.zones[a].chunkSize == DESC
    requires p < |h.addrs| && p !in h.used
    requires var t, d := Take(h, a), h.zones[a].free[0];
      d in t.host && t.host[d] in t.zones && p < |t.addrs| && r == Birth(t, d, p, chunkSize)
    ensures Grown(h, a, p, chunkSize, r)
  {
  }

  /** Which descriptor zone and which pages an allocateZone call used: `first` hosted the first new zone,
      carved from page1; if that was a descriptor zone, the requested zone is carved from page2. */
  datatype ZoneTrace = ZoneTrace(first: nat, page1: nat, page2: nat)

  /** allocateZone for this chunk size first needs a new descriptor zone. */
  ghost predicate NeedsDescriptors(h: Heap, chunkSize: nat)
  {
    chunkSize != DESC && FreeIn(h.zones, DESC) == 1
  }

  ghost function PagesNeeded(h: Heap, chunkSize: nat): nat
  {
    if NeedsDescriptors(h, chunkSize) then 2 else 1
  }

  /** r is h after allocateZone: one new zone d, or a new descriptor zone and d hosted in it. */
  ghost predicate Obtained(h: Heap, chunkSize: nat, t: ZoneTrace, r: Heap, d: nat)
  {
    if NeedsDescriptors(h, chunkSize) then
      && CanHost(h, t.first, t.page1)
      && var m, e := WithZone(h, t.first, t.page1, DESC), h.zones[t.first].free[0];
      && Grown(m, e, t.page2, chunkSize, r) && d == m.zones[e].free[0]
    else
      Grown(h, t.first, t.page1, chunkSize, r) && d == h.zones[t.first].free[0]
  }

  lemma SettledReserve(h: Heap)
    requires Settled(h)
    ensures FreeIn(h.zones, DESC) >= 1 && Inv(h) && AllBusy(h) && Pending(h) == {}
  {
  }

  lemma NewZoneExpected(h: Heap, a: nat, p: nat, chunkSize: nat)
    requires Settled(h) && CanHost(h, a, p) && SizeClass(chunkSize, h.pageSize) && !NeedsDescriptors(h, chunkSize)
    ensures chunkSize > 0 && h.zones[a].free[0] in WithZone(h, a, p, chunkSize).zones
    ensures Expecting(WithZone(h, a, p, chunkSize), h.zones[a].free[0])
    ensures WithZone(h, a, p, chunkSize).zones[h.zones[a].free[0]].chunkSize == chunkSize
  {
    hide Inv, FreeIn, Pending, WithZone;
    ZoneObtained(h, a, p, chunkSize);
    WithZoneKeeps(h, a, p, chunkSize);
  }

  lemma ObtainedIntro(h: Heap, chunkSize: nat, nested: bool, t: ZoneTrace, m: Heap, r: Heap)
    requires nested <==> NeedsDescriptors(h, chunkSize)
    requires nested ==>
      && CanHost(h, t.first, t.page1) && m == WithZone(h, t.first, t.page1, DESC)
      && Grown(m, h.zones[t.first].free[0], t.page2, chunkSize, r)
    requires !nested ==> m == h && Grown(h, t.first, t.page1, chunkSize, r)
    ensures nested ==> Obtained(h, chunkSize, t, r, m.zones[h.zones[t.first].free[0]].free[0])
    ensures !nested ==> Obtained(h, chunkSize, t, r, h.zones[t.first].free[0])
  {
    hide WithZone, Inv;
  }

  lemma SimplyUndone(h: Heap, a: nat, r: Heap)
    requires Inv(h) && AllBusy(h) && RolledBack(h, a, r)
    ensures r == h
  {
    hide Inv, AllBusy, Pending;
    TakeUndone(h, a);
  }

  lemma NestedUndone(h: Heap, t: ZoneTrace, m: Heap, r: Heap)
    requires Inv(h) && AllBusy(h) && CanHost(h, t.first, t.page1) && SizeClass(DESC, h.pageSize)
    requires m == WithZone(h, t.first, t.page1, DESC) && RolledBack(m, h.zones[t.first].free[0], r)
    ensures r == h
  {
    hide Inv, AllBusy, Pending, SizeClass;
    ZoneUndone(h, t.first, t.page1, DESC);
    TakeUndone(h, t.first);
  }

  /** After allocateZone the new zone has the requested chunk size and is ready to serve the request. */
  lemma ObtainedExpecting(h: Heap, chunkSize: nat, t: ZoneTrace, m: Heap, d: nat)
    requires Settled(h) && SizeClass(chunkSize, h.pageSize) && SizeClass(DESC, h.pageSize)
      && Obtained(h, chunkSize, t, m, d)
    ensures Expecting(m, d) && m.zones[d].chunkSize == chunkSize
    ensures m.live == h.live && m.blocks == h.blocks && m.addrs == h.addrs && m.pageSize == h.pageSize
      && m.reserved == h.reserved
    ensures m.zones.Keys > h.zones.Keys
  {
    hide Inv, FreeIn, Pending, WithZone, SizeClass;
    if NeedsDescriptors(h, chunkSize) {
      NewZoneExpected(h, t.first, t.page1, DESC);
      WithZoneKeeps(h, t.first, t.page1, DESC);
      var k, e := WithZone(h, t.first, t.page1, DESC), h.zones[t.first].free[0];
      ZoneObtained(k, e, t.page2, chunkSize);
      WithZoneKeeps(k, e, t.page2, chunkSize);
    } else {
      NewZoneExpected(h, t.first, t.page1, chunkSize);
      WithZoneKeeps(h, t.first, t.page1, chunkSize);
    }
  }

  // ----- the operations of the public interface

  /** The chunk size for a request: detail::chunkSize. */
  ghost function ClassOf(size: nat): nat
    requires size > 0
  {
    CeilPow2(if size > MINIMAL_ALLOC then size else MINIMAL_ALLOC)
  }

  /** Requests that are served with whole pages. */
  ghost predicate Large(size: nat, pageSize: nat)
    requires size > 0
  {
    size >= pageSize || ClassOf(size) >= pageSize
  }

  lemma SmallClass(size: nat, pageSize: nat)
    requires size > 0 && PowerOf2(pageSize) && !Large(size, pageSize)
    ensures SizeClass(ClassOf(size), pageSize) && ClassOf(size) >= size
  {
    var v := if size > MINIMAL_ALLOC then size else MINIMAL_ALLOC;
    CeilPow2Least(v);
    var a: nat :| CeilPow2(v) == Pow2(a);
    var b: nat :| pageSize == Pow2(b);
    if b <= a { Pow2Mono(b, a); }
    Pow2Mono(a, b);
  }

  /** No zone of the chunk size has a chunk to spare: shouldAllocateZone. */
  ghost predicate Exhausted(h: Heap, chunkSize: nat)
  {
    FreeIn(h.zones, chunkSize) == if chunkSize == DESC then 1 else 0
  }

  lemma SpareChunk(h: Heap, chunkSize: nat)
    requires Settled(h)
    ensures !Exhausted(h, chunkSize) ==> FreeIn(h.zones, chunkSize) > 0
  {
  }

  /** allocate served a small request of size bytes with the chunk c of the zone at a; m is the heap after
      a new zone was obtained, or h itself if a chunk could be spared. */
  ghost predicate ChunkServed(h: Heap, size: nat, m: Heap, t: ZoneTrace, a: nat, c: nat, r: Heap)
  {
    && 0 < size && !Large(size, h.pageSize)
    && (if Exhausted(h, ClassOf(size)) then Obtained(h, ClassOf(size), t, m, a) else m == h)
    && a in m.zones && m.zones[a].chunkSize == ClassOf(size) && m.zones[a].free != []
    && c == m.zones[a].free[0] && r == Grant(Take(m, a), c, size)
  }

  /** allocate served a large request with a group of k pages at p, just enough for size bytes. */
  ghost predicate BlockServed(h: Heap, size: nat, p: nat, k: nat, r: Heap)
  {
    0 < size && Large(size, h.pageSize) && Covers(k, h.pageSize, size) && p !in h.used && r == GrantBlock(h, p, k, size)
  }

  /** How a request was served: the heap in between, the zone obtained or chosen, or the first page. */
  datatype Service = Service(middle: Heap, trace: ZoneTrace, zone: nat, page: nat)

  /** allocate returned the address addr for a request of size bytes and left the heap r. */
  ghost predicate Served(h: Heap, size: nat, addr: nat, w: Service, r: Heap)
  {
    && 0 < size && h.pageSize > 0
    && if Large(size, h.pageSize) then
         w.page < |h.addrs| && addr == h.addrs[w.page] && BlockServed(h, size, w.page, PagesFor(size, h.pageSize), r)
       else
         ChunkServed(h, size, w.middle, w.trace, w.zone, addr, r)
  }

  lemma ChunkServedIntro(h: Heap, size: nat, m: Heap, t: ZoneTrace, a: nat, c: nat, r: Heap)
    requires 0 < size && !Large(size, h.pageSize)
    requires if Exhausted(h, ClassOf(size)) then Obtained(h, ClassOf(size), t, m, a) else m == h
    requires a in m.zones && m.zones[a].chunkSize == ClassOf(size) && m.zones[a].free != []
    requires c == m.zones[a].free[0] && r == Grant(Take(m, a), c, size)
    ensures ChunkServed(h, size, m, t, a, c, r)
  {
  }

  lemma ServedSettled(h: Heap, size: nat, m: Heap, t: ZoneTrace, a: nat, c: nat, r: Heap)
    requires Settled(h) && PowerOf2(h.pageSize) && SizeClass(DESC, h.pageSize) && ChunkServed(h, size, m, t, a, c, r)
    ensures Settled(r) && c !in h.live && r.live == h.live[c := size] && r.blocks == h.blocks
    ensures c in r.host && r.host[c] == a && a in r.zones && r.zones[a].chunkSize == ClassOf(size) >= size
    ensures r.addrs == h.addrs && r.pageSize == h.pageSize && r.reserved == h.reserved
  {
    hide Inv, FreeIn, Pending, SizeClass, ClassOf, Obtained, Unused;
    SmallClass(size, h.pageSize);
    if Exhausted(h, ClassOf(size)) {
      ObtainedExpecting(h, ClassOf(size), t, m, a);
    } else {
      NotExhausted(h, a);
    }
    ChunkGranted(m, a, size);
  }

  /** A free chunk outside an exhausted bucket leaves the descriptor reserve intact. */
  lemma NotExhausted(h: Heap, a: nat)
    requires Settled(h) && a in h.zones && h.zones[a].free != [] && !Exhausted(h, h.zones[a].chunkSize)
    ensures FreeIn(h.zones, DESC) >= if h.zones[a].chunkSize == DESC then 2 else 1
  {
    FreeInUpdate(h.zones, a, h.zones[a], DESC);
  }

  lemma BlockServedSettled(h: Heap, size: nat, p: nat, k: nat, r: Heap)
    requires Settled(h) && BlockServed(h, size, p, k, r)
    ensures Settled(r) && r.live == h.live && r.blocks == h.blocks[p := size] && p !in h.blocks
      && r.used == h.used[p := k]
  {
    hide Inv, FreeIn, ClassOf;
    BlockGranted(h, p, k, size);
    BlocksUsed(h);
  }

  lemma BlocksUsed(h: Heap)
    requires Settled(h)
    ensures forall p | p in h.blocks :: p in h.used
  {
  }

  /** The pages for a large request: ceil(size / pageSize). */
  function PagesFor(size: nat, pageSize: nat): nat
    requires pageSize > 0
  {
    (size + pageSize - 1) / pageSize
  }

  lemma PagesForCovers(size: nat, pageSize: nat)
    requires size > 0 && pageSize > 0
    ensures Covers(PagesFor(size, pageSize), pageSize, size)
  {
    var x := size + pageSize - 1;
    var k := PagesFor(size, pageSize);
    assert x == k * pageSize + x % pageSize;
    if k < 1 { MulLess(0, 1 - k, pageSize); }
    assert (k - 1) * pageSize == k * pageSize - pageSize;
  }

  /** Exactly when allocate returns nullptr, given the heap and the page partition before the call. */
  ghost predicate CannotServe(h: Heap, p: Pages, size: nat)
    requires h.pageSize > 0
  {
    || size == 0
    || (if Large(size, h.pageSize) then forall g | g in p.free :: p.free[g] < PagesFor(size, h.pageSize)
        else Exhausted(h, ClassOf(size)) && Sum(p.free) < PagesNeeded(h, ClassOf(size)))
  }

  /** The user holds the page group that starts at this address. */
  ghost predicate HoldsBlock(h: Heap, addr: nat, p: nat)
  {
    p in h.blocks && p < |h.addrs| && h.addrs[p] == addr
  }

  /** The user holds the block at this address. */
  ghost predicate Holds(h: Heap, addr: nat)
  {
    addr in h.live || exists p :: HoldsBlock(h, addr, p)
  }

  /** release of a held address: a chunk is deallocated with the whole cascade, a page group is returned. */
  ghost predicate Freed(h: Heap, addr: nat, r: Heap)
  {
    if addr in h.live then
      Inv(Revoke(h, addr)) && addr in Pending(Revoke(h, addr)) && r == Dealloc(Revoke(h, addr), addr)
    else
      exists p :: HoldsBlock(h, addr, p) && r == RevokeBlock(h, p)
  }

  /** The pages of the user's blocks are not zone pages, so their addresses are no chunk addresses. */
  lemma BlockIsNoChunk(h: Heap, addr: nat, p: nat, a: nat)
    requires Inv(h) && HoldsBlock(h, addr, p) && a in h.zones
    ensures addr !in h.zones[a].chunks && 0 < addr < Pow2(WORD)
  {
    hide Pow2;
    assert ZoneOk(h, h.zones[a]);
    if addr in h.zones[a].chunks {
      PageOfChunk(h, h.zones[a], addr);
    }
  }

  /** A released address leaves a settled heap in which the user holds everything but that address. */
  lemma FreedSettled(h: Heap, addr: nat, r: Heap)
    requires Settled(h) && Freed(h, addr, r)
    ensures Settled(r) && r.addrs == h.addrs && r.pageSize == h.pageSize && r.reserved == h.reserved
    ensures addr in h.live ==> r.live == h.live - {addr} && r.blocks == h.blocks && Shrunk(Revoke(h, addr), r, addr)
    ensures addr !in h.live ==> r.live == h.live && exists p :: HoldsBlock(h, addr, p) && r == RevokeBlock(h, p)
    ensures h.reserved in h.used && h.reserved in r.used && r.used[h.reserved] == h.used[h.reserved]
  {
    hide Inv, FreeIn;
    if addr in h.live {
      ChunkReleased(h, addr);
    } else {
      var p :| HoldsBlock(h, addr, p) && r == RevokeBlock(h, p);
      BlockReleased(h, p);
    }
    ReservedUsed(h);
    ReservedUsed(r);
  }

  lemma ReservedUsed(h: Heap)
    requires Settled(h)
    ensures h.reserved in h.used
  {
  }

  // ----- round trip

  lemma GrantRevoked(h: Heap, c: nat, size: nat)
    requires c !in h.live
    ensures Revoke(Grant(h, c, size), c) == h
  {
    assert h.live[c := size] - {c} == h.live;
  }

  lemma BlockRevoked(h: Heap, p: nat, k: nat, size: nat)
    requires p !in h.used && p !in h.blocks
    ensures RevokeBlock(GrantBlock(h, p, k, size), p) == h
  {
    assert h.used[p := k] - {p} == h.used && h.blocks[p := size] - {p} == h.blocks;
  }

  /** The zones obtained for a request go again when its chunk is given back at once. */
  lemma ObtainedUndone(h: Heap, cs: nat, t: ZoneTrace, m: Heap, d: nat)
    requires Settled(h) && SizeClass(cs, h.pageSize) && SizeClass(DESC, h.pageSize) && Obtained(h, cs, t, m, d)
    ensures Inv(m) && d in m.zones && m.zones[d].free != []
    ensures var c := m.zones[d].free[0]; Inv(Take(m, d)) && c in Pending(Take(m, d)) && Dealloc(Take(m, d), c) == h
  {
    hide Inv, FreeIn, Pending, SizeClass, AllBusy, Unused;
    SettledReserve(h);
    TakeUndone(h, t.first);
    if NeedsDescriptors(h, cs) {
      ZoneUndone(h, t.first, t.page1, DESC);
      WithZoneKeeps(h, t.first, t.page1, DESC);
      ZoneUndone(WithZone(h, t.first, t.page1, DESC), h.zones[t.first].free[0], t.page2, cs);
    } else {
      ZoneUndone(h, t.first, t.page1, cs);
    }
  }

  /** release undoes allocate: giving a chunk back right after it was handed out restores the whole heap,
      the zones that had to be obtained and the order of every free list included. */
  lemma ChunkRoundTrip(h: Heap, size: nat, m: Heap, t: ZoneTrace, a: nat, c: nat, g: Heap, r: Heap)
    requires Settled(h) && PowerOf2(h.pageSize) && SizeClass(DESC, h.pageSize)
    requires ChunkServed(h, size, m, t, a, c, g) && Freed(g, c, r)
    ensures r == h
  {
    hide Inv, FreeIn, Pending, SizeClass, ClassOf, Obtained, Unused;
    ServedSettled(h, size, m, t, a, c, g);
    SmallClass(size, h.pageSize);
    SettledReserve(h);
    if Exhausted(h, ClassOf(size)) {
      ObtainedExpecting(h, ClassOf(size), t, m, a);
      ObtainedUndone(h, ClassOf(size), t, m, a);
    } else {
      TakeUndone(h, a);
    }
    GrantRevoked(Take(m, a), c, size);
  }

  // ----- init

  /** The heap after init: the initial zone on page p, nothing in use. */
  ghost function InitialHeap(pageSize: nat, addrs: seq<nat>, reserved: nat, used: map<nat, nat>, p: nat): Heap
    requires p < |addrs|
  {
    var n := ChunkCount(pageSize, DESC);
    var z := Zone(p, DESC, ChunkSet(addrs[p], DESC, n), Carved(addrs[p], DESC, n), 0);
    Heap(pageSize, addrs, reserved, used[p := 1], map[INITIAL := z], map[], map[], map[])
  }

  lemma InitialSettled(pageSize: nat, addrs: seq<nat>, reserved: nat, k: nat, p: nat)
    requires SizeClass(DESC, pageSize) && PagesApart(pageSize, addrs) && p < |addrs| && p != reserved
    ensures var h := InitialHeap(pageSize, addrs, reserved, map[reserved := k], p);
      Settled(h) && Unused(h.zones[INITIAL])
          && |h.zones[INITIAL].free| == |h.zones[INITIAL].chunks| == ChunkCount(pageSize, DESC)
  {
    hide SizeClass, Carved, ChunkSet, FreeIn, ChunkCount, PagesApart;
    var h := InitialHeap(pageSize, addrs, reserved, map[reserved := k], p);
    var z := h.zones[INITIAL];
    BornUnused(addrs[p], DESC, pageSize);
    CarvedFacts(addrs[p], DESC, ChunkCount(pageSize, DESC));
    DistinctCard(z.free, z.chunks);
    assert ZoneOk(h, z);
    assert IsZonePage(h, p) by { assert h.zones[INITIAL].page == p; }
    FreeInInsert(map[], INITIAL, z, DESC);
    assert map[][INITIAL := z] == h.zones;
    assert Pending(h) == {};
  }

  lemma InitialFields(pageSize: nat, addrs: seq<nat>, reserved: nat, used: map<nat, nat>, p: nat)
    requires p < |addrs|
    ensures var h := InitialHeap(pageSize, addrs, reserved, used, p);
      && h.zones.Keys == {INITIAL} && h.zones == map[][INITIAL := h.zones[INITIAL]]
      && h.used == used[p := 1] && h.addrs == addrs && h.pageSize == pageSize && h.reserved == reserved
      && h.live == map[] && h.blocks == map[] && h.host == map[]
      && h.zones[INITIAL].page == p && h.zones[INITIAL].chunkSize == DESC
      && h.zones[INITIAL].free == Carved(addrs[p], DESC, ChunkCount(pageSize, DESC))
  {
  }
}
