/** Conservation of memory: what the statistics of allocator.cpp add up to. */
module Accounting {
  import opened Bits
  import opened HeapModel
  import opened HeapSafety
  import opened HeapSteps
  import opened ListNode
  import opened PagePartition
  import opened Regions
  import opened Sums

  // ----- used pages

  /** The pages of the user's blocks. */
  ghost function BlockPages(h: Heap): nat
  {
    Sum(Only(h.used, h.blocks.Keys))
  }

  /** Every used page is a descriptor page, a zone page or a page of a user block. */
  lemma UsedPagesAddUp(h: Heap)
    requires Settled(h)
    ensures h.reserved in h.used && Sum(h.used) == h.used[h.reserved] + |h.zones| + BlockPages(h)
  {
    hide Inv, FreeIn, Sum, Times;
    ReservedIsUsed(h);
    SumSplit(h.used, h.blocks.Keys);
    var rest := h.used - h.blocks.Keys;
    SumRemove(rest, h.reserved);
    var zonePages := rest - {h.reserved};
    ZonePageCount(h, zonePages);
    SumConst(zonePages, 1);
    OneTimes(|zonePages|);
  }

  lemma ReservedIsUsed(h: Heap)
    requires Settled(h)
    ensures h.reserved in h.used && h.reserved !in h.blocks && forall p | p in h.blocks :: p in h.used
  {
  }

  lemma OneTimes(k: nat)
    ensures Times(k, 1) == k
  {
  }

  lemma ZonePageCount(h: Heap, zonePages: map<nat, nat>)
    requires Inv(h) && zonePages == h.used - h.blocks.Keys - {h.reserved}
    ensures |zonePages| == |h.zones| && forall p | p in zonePages :: zonePages[p] == 1
  {
    hide *;
    ZonePageKeys(h, zonePages);
    ZonePagesFacts(h);
    ImageCard(ZonePages(h));
    assert |zonePages| == |zonePages.Keys|;
  }

  lemma ZonePageKeys(h: Heap, zonePages: map<nat, nat>)
    requires Inv(h) && zonePages == h.used - h.blocks.Keys - {h.reserved}
    ensures zonePages.Keys == ZonePages(h).Values && forall p | p in zonePages :: zonePages[p] == 1
  {
    hide *;
    forall p ensures p in zonePages.Keys <==> p in ZonePages(h).Values { ZonePageIff(h, p); }
    forall p | p in zonePages ensures zonePages[p] == 1 { ZonePageIff(h, p); }
  }

  lemma ZonePageIff(h: Heap, p: nat)
    requires Inv(h)
    ensures p in h.used && p !in h.blocks && p != h.reserved <==> p in ZonePages(h).Values
    ensures p in ZonePages(h).Values ==> h.used[p] == 1
  {
    hide Inv;
    if p in h.used && p !in h.blocks && p != h.reserved { var a := ZonePageOwner(h, p); }
    if p in ZonePages(h).Values {
      var a :| a in ZonePages(h) && ZonePages(h)[a] == p;
      ZonePageUsed(h, a);
    }
  }

  ghost function ZonePages(h: Heap): map<nat, nat>
  {
    map a | a in h.zones :: h.zones[a].page
  }

  lemma ZonePageOwner(h: Heap, p: nat) returns (a: nat)
    requires Inv(h) && p in h.used && p !in h.blocks && p != h.reserved
    ensures a in ZonePages(h) && ZonePages(h)[a] == p
  {
    hide ZonesOk, HostOk, DescribedOk, PagesApart;
    assert IsZonePage(h, p);
    a :| a in h.zones && h.zones[a].page == p;
  }

  lemma ZonePageUsed(h: Heap, a: nat)
    requires Inv(h) && a in h.zones
    ensures h.zones[a].page in h.used && h.used[h.zones[a].page] == 1
    ensures h.zones[a].page != h.reserved && h.zones[a].page !in h.blocks
  {
    hide Inv;
    ZoneIsOk(h, a);
  }

  lemma ZonePagesFacts(h: Heap)
    requires Inv(h)
    ensures ZonePages(h).Keys == h.zones.Keys && |ZonePages(h)| == |h.zones|
    ensures forall a | a in h.zones :: ZonePages(h)[a] == h.zones[a].page
    ensures forall a, b | a in h.zones && b in h.zones && a != b :: ZonePages(h)[a] != ZonePages(h)[b]
  {
    hide HostOk, DescribedOk, UsedOk, PagesApart, ZoneOk;
  }

  // ----- bytes of the zones

  /** The size of each chunk in use. */
  ghost function ChunkBytes(h: Heap): map<nat, nat>
  {
    map c | c in h.host && h.host[c] in h.zones :: h.zones[h.host[c]].chunkSize
  }

  /** The rounded bytes of the user's chunks. */
  ghost function LiveBytes(h: Heap): nat
  {
    Sum(Only(ChunkBytes(h), h.live.Keys))
  }

  /** The free chunk bytes of each zone. */
  ghost function FreeChunkBytes(zs: map<nat, Zone>): map<nat, nat>
  {
    map a | a in zs :: Times(|zs[a].free|, zs[a].chunkSize)
  }

  /** The chunks in use of the zones in s. */
  ghost function ChunksOf(h: Heap, s: set<nat>): set<nat>
  {
    set c | c in h.host && h.host[c] in s
  }

  lemma ChunksInUse(h: Heap, a: nat)
    requires Inv(h) && a in h.zones
    ensures |ChunksOf(h, {a})| + |h.zones[a].free| == |h.zones[a].chunks|
    ensures Times(|h.zones[a].chunks|, h.zones[a].chunkSize) == h.pageSize
  {
    hide DescribedOk, UsedOk, TilesPage, SizeClass, ChunkSet, Distinct;
    var z := h.zones[a];
    assert ZoneOk(h, z);
    ZoneFacts(h, z);
    ZoneSize(h, z);
    DistinctCard(z.free, SetOf(z.free));
    var used := ChunksOf(h, {a});
    forall c ensures c in used <==> c in z.chunks && c !in SetOf(z.free) { }
    assert used == z.chunks - SetOf(z.free);
    assert SetOf(z.free) <= z.chunks;
  }

  lemma ZoneSize(h: Heap, z: Zone)
    requires ZoneOk(h, z)
    ensures Times(|z.chunks|, z.chunkSize) == h.pageSize
  {
    ChunksTilePage(h.addrs[z.page], z.chunkSize, h.pageSize);
    assert PageAddress(0, |z.chunks|, z.chunkSize) == Times(|z.chunks|, z.chunkSize);
  }

  /** The chunks of a set of zones: free bytes and bytes in use fill the pages. */
  lemma {:induction false} ZonesFill(h: Heap, s: set<nat>)
    requires Inv(h) && s <= h.zones.Keys
    ensures Sum(Only(FreeChunkBytes(h.zones), s)) + Sum(Only(ChunkBytes(h), ChunksOf(h, s))) == Times(|s|, h.pageSize)
    decreases |s|
  {
    hide Inv, Sum, Times, Only, ChunkBytes, FreeChunkBytes, ChunksOf;
    TimesAdd(0, 0, h.pageSize);
    SumEmpty();
    if s == {} {
      NothingHosted(h);
    } else {
      var a :| a in s;
      var t := s - {a};
      ZonesFill(h, t);
      ZoneAdded(h, s, a);
      TimesAdd(|t|, 1, h.pageSize);
    }
  }

  lemma NothingHosted(h: Heap)
    ensures Only(FreeChunkBytes(h.zones), {}) == map[] && Only(ChunkBytes(h), ChunksOf(h, {})) == map[]
  {
  }

  lemma ZoneAdded(h: Heap, s: set<nat>, a: nat)
    requires Inv(h) && s <= h.zones.Keys && a in s
    ensures Sum(Only(FreeChunkBytes(h.zones), s)) + Sum(Only(ChunkBytes(h), ChunksOf(h, s)))
         == Sum(Only(FreeChunkBytes(h.zones), s - {a})) + Sum(Only(ChunkBytes(h), ChunksOf(h, s - {a}))) + h.pageSize
  {
    hide Inv, Sum, Times;
    var f := Only(FreeChunkBytes(h.zones), s);
    SumRemove(f, a);
    assert f - {a} == Only(FreeChunkBytes(h.zones), s - {a});
    var z := h.zones[a];
    var m, x := Only(ChunkBytes(h), ChunksOf(h, s)), ChunksOf(h, {a});
    SumSplit(m, x);
    HostedSplit(h, s, a);
    SumConst(Only(m, x), z.chunkSize);
    ChunksInUse(h, a);
    TimesAdd(|x|, |z.free|, z.chunkSize);
  }

  lemma HostedSplit(h: Heap, s: set<nat>, a: nat)
    requires s <= h.zones.Keys && a in s
    ensures var m, x := Only(ChunkBytes(h), ChunksOf(h, s)), ChunksOf(h, {a});
      && m - x == Only(ChunkBytes(h), ChunksOf(h, s - {a}))
      && Only(m, x).Keys == x && |Only(m, x)| == |x|
      && forall c | c in Only(m, x) :: Only(m, x)[c] == h.zones[a].chunkSize
  {
    var m, x := Only(ChunkBytes(h), ChunksOf(h, s)), ChunksOf(h, {a});
    assert Only(m, x).Keys == x;
    assert (m - x).Keys == Only(ChunkBytes(h), ChunksOf(h, s - {a})).Keys;
  }

  /** The bytes of all zones: free chunks, the user's chunks, and one descriptor for every zone but the
      initial one. */
  lemma ZoneBytesAddUp(h: Heap)
    requires Settled(h)
    ensures |h.zones| >= 1
    ensures Times(|h.zones|, h.pageSize) == Sum(FreeChunkBytes(h.zones)) + LiveBytes(h) + Times(|h.zones| - 1, DESC)
  {
    hide Inv, Sum, Times, FreeIn, FreeChunkBytes, ChunkBytes;
    SettledReserve(h);
    InitialZoneIn(h);
    ZonesFill(h, h.zones.Keys);
    AllZones(h);
    var m := ChunkBytes(h);
    SumSplit(m, h.live.Keys);
    DescriptorBytes(h);
    SumConst(m - h.live.Keys, DESC);
  }

  lemma InitialZoneIn(h: Heap)
    requires Inv(h)
    ensures INITIAL in h.zones && |h.zones| == |h.zones.Keys| && |h.zones.Keys - {INITIAL}| == |h.zones| - 1
      && |h.zones| >= 1
  {
    assert h.zones.Keys == h.zones.Keys - {INITIAL} + {INITIAL};
  }

  lemma AllZones(h: Heap)
    requires Inv(h)
    ensures Only(FreeChunkBytes(h.zones), h.zones.Keys) == FreeChunkBytes(h.zones)
    ensures Only(ChunkBytes(h), ChunksOf(h, h.zones.Keys)) == ChunkBytes(h)
  {
    hide Inv;
  }

  /** The chunks in use that the user does not hold are the zone descriptors. */
  lemma DescriptorBytes(h: Heap)
    requires Settled(h)
    ensures |ChunkBytes(h) - h.live.Keys| == |h.zones| - 1
    ensures forall c | c in ChunkBytes(h) - h.live.Keys :: (ChunkBytes(h) - h.live.Keys)[c] == DESC
  {
    hide *;
    DescriptorKeys(h);
    SettledReserve(h);
    InitialZoneIn(h);
    var m := ChunkBytes(h) - h.live.Keys;
    assert |m| == |m.Keys|;
  }

  lemma DescriptorKeys(h: Heap)
    requires Settled(h)
    ensures (ChunkBytes(h) - h.live.Keys).Keys == h.zones.Keys - {INITIAL}
    ensures forall c | c in ChunkBytes(h) - h.live.Keys :: (ChunkBytes(h) - h.live.Keys)[c] == DESC
  {
    hide *;
    var m := ChunkBytes(h) - h.live.Keys;
    forall c ensures c in m.Keys <==> c in h.zones.Keys - {INITIAL} { DescriptorOrLive(h, c); }
    forall c | c in m ensures m[c] == DESC { DescriptorOrLive(h, c); }
  }

  lemma DescriptorOrLive(h: Heap, c: nat)
    requires Settled(h)
    ensures c in ChunkBytes(h) && c !in h.live <==> c in h.zones && c != INITIAL
    ensures c in h.zones && c != INITIAL ==> ChunkBytes(h)[c] == DESC
  {
    hide Inv, FreeIn;
    if c in ChunkBytes(h) && c !in h.live {
      assert c !in Pending(h);
      InUsePositive(h, c);
    }
    if c in h.zones && c != INITIAL { DescriptorHosted(h, c); }
  }

  lemma DescriptorHosted(h: Heap, c: nat)
    requires Inv(h) && c in h.zones && c != INITIAL
    ensures c in h.host && h.host[c] in h.zones && h.zones[h.host[c]].chunkSize == DESC && c !in h.live
  {
    hide ZonesOk, HostOk, UsedOk, PagesApart;
    assert c in h.host;
  }

  // ----- the statistics

  lemma WordSizes()
    ensures Pow2(UINT) == 0x1_0000_0000 && Pow2(WORD) == 0x1_0000_0000_0000_0000
  {
    hide Pow2;
    assert Pow2(8) == 256 by { ByteSize(); }
    Pow2Add(8, 8);
    assert Pow2(16) == 0x1_0000;
    Pow2Add(16, 16);
    assert Pow2(32) == 0x1_0000_0000;
    Pow2Add(32, 32);
  }

  lemma ByteSize()
    ensures Pow2(8) == 256
  {
    assert Pow2(4) == 16;
    Pow2Add(4, 4);
  }

  /** At most eight regions of fewer than 2^21 pages. */
  lemma SmallNumbers(k: nat, regions: nat, size: nat)
    requires k <= Times(regions, PAGE_LIMIT) && regions <= 8 && size <= 4096
    ensures k <= 0x100_0000 && k < Pow2(UINT) && Times(k, size) <= 0x10_0000_0000 < Pow2(WORD)
  {
    hide Pow2;
    WordSizes();
    TimesMono(k, 0x100_0000, size);
    assert Times(0x100_0000, size) <= 0x10_0000_0000;
  }

  /** The number of zones, and the bytes of their pages and descriptors, do not wrap. */
  lemma ZoneNumbers(h: Heap, n: nat, regions: nat, pageSize: nat)
    requires Settled(h) && Sum(h.used) <= n <= Times(regions, PAGE_LIMIT) && regions <= 8 && pageSize <= 4096
    ensures 1 <= |h.zones| && Truncate(|h.zones|, UINT) == |h.zones|
    ensures Truncate(Times(|h.zones|, pageSize), WORD) == Times(|h.zones|, pageSize)
    ensures Truncate(Times(|h.zones| - 1, DESC), WORD) == Times(|h.zones| - 1, DESC)
  {
    hide Settled, Times, Truncate, Pow2, Sum;
    UsedPagesAddUp(h);
    ZoneBytesAddUp(h);
    SmallNumbers(|h.zones|, regions, pageSize);
    SmallNumbers(|h.zones| - 1, regions, DESC);
    TruncateSmall(|h.zones|, UINT);
    TruncateSmall(Times(|h.zones|, pageSize), WORD);
    TruncateSmall(Times(|h.zones| - 1, DESC), WORD);
  }
}
