/** The abstract heap of the zone allocator: zones carved into chunks, the chunks in use, and who uses
    them. A zone descriptor is itself a chunk of a descriptor zone, so zones are keyed by the address of
    their descriptor; the static initial zone has key INITIAL. */
module HeapModel {
  import opened Bits
  import opened ListNode
  import opened Regions
  import opened Sums

  const INITIAL: nat := 0
  const MINIMAL_ALLOC: nat := 16

  /** m_zoneDescChunkSize: 64 bytes on a 64-bit target and 32 on a 32-bit one. Like sizeof(Page) it has no fixed
      value here. */
  type DescriptorBytes = n: nat | n == 16 || n == 32 || n == 64 witness 64
  const DESC: DescriptorBytes

  /** sizeof(Zone), any size that is rounded up to the descriptor chunk size. */
  type ZoneBytes = n: nat | 1 <= n <= DESC && (DESC < 2 * n || DESC == MINIMAL_ALLOC) witness DESC
  const SIZEOF_ZONE: ZoneBytes

  // ----- chunks of one page

  /** The free list that Zone::init leaves: the n chunks of a page, last one first. */
  ghost function Carved(base: nat, chunkSize: nat, n: nat): seq<nat>
  {
    if n == 0 then [] else [PageAddress(base, n - 1, chunkSize)] + Carved(base, chunkSize, n - 1)
  }

  /** The number of chunks of a page. */
  ghost function ChunkCount(pageSize: nat, chunkSize: nat): nat
    requires chunkSize > 0
  {
    pageSize / chunkSize
  }

  ghost function ChunkSet(base: nat, chunkSize: nat, n: nat): set<nat>
  {
    set i | 0 <= i < n :: PageAddress(base, i, chunkSize)
  }

  lemma {:induction false} CarvedFacts(base: nat, chunkSize: nat, n: nat)
    requires chunkSize > 0
    ensures |Carved(base, chunkSize, n)| == n
    ensures forall c :: c in Carved(base, chunkSize, n) <==> c in ChunkSet(base, chunkSize, n)
    ensures forall c | c in Carved(base, chunkSize, n) :: base <= c && c + chunkSize <= PageAddress(base, n, chunkSize)
    ensures Distinct(Carved(base, chunkSize, n))
  {
    hide PageAddress;
    PageAddressStep(base, 0, 0, chunkSize);
    if n > 0 {
      CarvedFacts(base, chunkSize, n - 1);
      ChunkSetNext(base, chunkSize, n);
      PageAddressStep(base, n - 1, n - 1, chunkSize);
      PageAddressLow(base, n - 1, chunkSize);
    }
  }

  lemma ChunkSetNext(base: nat, chunkSize: nat, n: nat)
    requires n > 0
    ensures ChunkSet(base, chunkSize, n) == ChunkSet(base, chunkSize, n - 1) + {PageAddress(base, n - 1, chunkSize)}
  {
  }

  lemma PageAddressLow(base: nat, k: nat, m: nat)
    ensures PageAddress(base, k, m) >= base
  {
  }

  lemma {:induction false} DistinctCard(s: seq<nat>, t: set<nat>)
    requires Distinct(s) && forall c :: c in s <==> c in t
    ensures |t| == |s|
  {
    if s == [] {
      assert t == {};
    } else {
      var u := t - {s[0]};
      forall c ensures c in s[1..] <==> c in u {
        if c in s[1..] {
          var i :| 0 <= i < |s[1..]| && s[1..][i] == c;
          assert s[i + 1] == c;
        }
        if c in u {
          var i :| 0 <= i < |s| && s[i] == c;
          assert s[1..][i - 1] == c;
        }
      }
      DistinctCard(s[1..], u);
    }
  }

  /** A chunk size that a page of the given size can be carved into. */
  ghost predicate SizeClass(chunkSize: nat, pageSize: nat)
  {
    PowerOf2(chunkSize) && PowerOf2(pageSize) && MINIMAL_ALLOC <= chunkSize && 2 * chunkSize <= pageSize
  }

  lemma SizeClassDivides(chunkSize: nat, pageSize: nat)
    requires SizeClass(chunkSize, pageSize)
    ensures chunkSize > 0 && ChunkCount(pageSize, chunkSize) >= 2
    ensures PageAddress(0, ChunkCount(pageSize, chunkSize), chunkSize) == pageSize && pageSize % chunkSize == 0
  {
    var a: nat :| chunkSize == Pow2(a);
    var b: nat :| pageSize == Pow2(b);
    if b <= a { Pow2Mono(b, a); }
    Pow2Divides(a, b);
    Pow2Mono(1, b - a);
    assert Pow2(1) == 2 by { assert Pow2(0) == 1; }
  }

  ghost predicate InSomeChunk(chunks: set<nat>, b: nat, chunkSize: nat)
  {
    exists c :: c in chunks && c <= b < c + chunkSize
  }

  /** The chunks of a page tile it: they lie inside, do not overlap, and cover every byte. */
  ghost predicate TilesPage(chunks: set<nat>, base: nat, chunkSize: nat, pageSize: nat)
  {
    && (forall c | c in chunks :: base <= c && c + chunkSize <= base + pageSize)
    && (forall c, d | c in chunks && d in chunks && c < d :: c + chunkSize <= d)
    && (forall b: nat | base <= b < base + pageSize :: InSomeChunk(chunks, b, chunkSize))
  }

  lemma ChunksApart(base: nat, chunkSize: nat, n: nat)
    requires chunkSize > 0
    ensures forall c, d | c in ChunkSet(base, chunkSize, n) && d in ChunkSet(base, chunkSize, n)
      && c < d :: c + chunkSize <= d
  {
    var chunks := ChunkSet(base, chunkSize, n);
    forall c, d | c in chunks && d in chunks && c < d ensures c + chunkSize <= d {
      var i :| 0 <= i < n && c == PageAddress(base, i, chunkSize);
      var j :| 0 <= j < n && d == PageAddress(base, j, chunkSize);
      MulLess(i, j, chunkSize);
    }
  }

  lemma ChunkOfByte(base: nat, chunkSize: nat, n: nat, b: nat)
    requires chunkSize > 0 && base <= b < PageAddress(base, n, chunkSize)
    ensures InSomeChunk(ChunkSet(base, chunkSize, n), b, chunkSize)
  {
    var i := (b - base) / chunkSize;
    assert b - base == i * chunkSize + (b - base) % chunkSize;
    MulLess(i, n, chunkSize);
    assert PageAddress(base, i, chunkSize) in ChunkSet(base, chunkSize, n);
  }

  lemma ChunkAligned(base: nat, chunkSize: nat, n: nat, i: nat)
    requires chunkSize > 0 && n > 0 && PageAddress(0, n, chunkSize) > 0
    requires base % PageAddress(0, n, chunkSize) == 0
    ensures PageAddress(base, i, chunkSize) % chunkSize == 0
  {
    var page := n * chunkSize;
    var q := base / page;
    assert base == q * page;
    MulAssoc(q, n, chunkSize);
    AddMul(q * n, i, chunkSize);
    MulDivMod(q * n + i, chunkSize, 0);
  }

  lemma MulAssoc(a: nat, b: nat, c: nat)
    ensures a * (b * c) == (a * b) * c
  {
  }

  lemma AddMul(a: nat, b: nat, c: nat)
    ensures (a + b) * c == a * c + b * c
  {
  }

  lemma ChunksTilePage(base: nat, chunkSize: nat, pageSize: nat)
    requires SizeClass(chunkSize, pageSize)
    ensures chunkSize > 0 && ChunkCount(pageSize, chunkSize) >= 2
    ensures var chunks := ChunkSet(base, chunkSize, ChunkCount(pageSize, chunkSize));
      && TilesPage(chunks, base, chunkSize, pageSize)
      && |chunks| == ChunkCount(pageSize, chunkSize) && PageAddress(0, |chunks|, chunkSize) == pageSize
      && (base % pageSize == 0 ==> forall c | c in chunks :: c % chunkSize == 0)
  {
    hide SizeClass, Carved, ChunkSet, InSomeChunk;
    SizeClassDivides(chunkSize, pageSize);
    var n := ChunkCount(pageSize, chunkSize);
    var chunks := ChunkSet(base, chunkSize, n);
    CarvedFacts(base, chunkSize, n);
    DistinctCard(Carved(base, chunkSize, n), chunks);
    assert PageAddress(base, n, chunkSize) == base + pageSize;
    ChunksApart(base, chunkSize, n);
    forall b: nat | base <= b < base + pageSize ensures InSomeChunk(chunks, b, chunkSize) {
      ChunkOfByte(base, chunkSize, n, b);
    }
    if base % pageSize == 0 {
      ChunksAligned(base, chunkSize, n);
    }
  }

  lemma ChunksAligned(base: nat, chunkSize: nat, n: nat)
    requires chunkSize > 0 && n > 0 && PageAddress(0, n, chunkSize) > 0 && base % PageAddress(0, n, chunkSize) == 0
    ensures forall c | c in ChunkSet(base, chunkSize, n) :: c % chunkSize == 0
  {
    hide PageAddress;
    forall c | c in ChunkSet(base, chunkSize, n) ensures c % chunkSize == 0 {
      var i :| 0 <= i < n && c == PageAddress(base, i, chunkSize);
      ChunkAligned(base, chunkSize, n, i);
    }
  }

  // ----- zones

  datatype Zone = Zone(page: nat, chunkSize: nat, chunks: set<nat>, free: seq<nat>, depth: nat)

  /** pageSize and addrs describe the pages; used are the used page groups (first page to page count)
      and reserved is the group of the page descriptors; host maps each chunk in use to its zone;
      live maps each chunk the user holds, and blocks each page group the user holds, to the size asked for. */
  datatype Heap = Heap(
    pageSize: nat, addrs: seq<nat>, reserved: nat, used: map<nat, nat>,
    zones: map<nat, Zone>, host: map<nat, nat>, live: map<nat, nat>, blocks: map<nat, nat>)

  ghost function SetOf(s: seq<nat>): set<nat>
  {
    set c | c in s
  }

  /** All chunks of the zone are free. */
  ghost predicate Unused(z: Zone)
  {
    |z.free| == |z.chunks|
  }

  /** Chunks in use that are neither a zone descriptor nor held by the user. */
  ghost function Pending(h: Heap): set<nat>
  {
    h.host.Keys - h.live.Keys - h.zones.Keys
  }

  ghost predicate ZoneOk(h: Heap, z: Zone)
  {
    && z.page < |h.addrs|
    && SizeClass(z.chunkSize, h.pageSize)
    && z.chunks == ChunkSet(h.addrs[z.page], z.chunkSize, ChunkCount(h.pageSize, z.chunkSize))
    && Distinct(z.free)
    && (forall c | c in z.free :: c in z.chunks)
  }

  /** Zones are carved from pages of their own. */
  ghost predicate ZonesOk(h: Heap)
  {
    && INITIAL in h.zones && h.zones[INITIAL].chunkSize == DESC
    && (forall a | a in h.zones :: ZoneOk(h, h.zones[a]))
    && (forall a, b | a in h.zones && b in h.zones && a != b :: h.zones[a].page != h.zones[b].page)
  }

  /** Exactly the chunks that are not free have a host, namely their zone. */
  ghost predicate HostOk(h: Heap)
  {
    && (forall c | c in h.host ::
          && h.host[c] in h.zones
          && c in h.zones[h.host[c]].chunks && c !in h.zones[h.host[c]].free)
    && (forall a, c | a in h.zones && c in h.zones[a].chunks && c !in h.zones[a].free :: c in h.host && h.host[c] == a)
  }

  /** Every zone but the initial one is described by a chunk of a descriptor zone that is nearer to it. */
  ghost predicate DescribedOk(h: Heap)
  {
    && (forall a {:trigger h.host[a]} {:trigger a in h.host} | a in h.zones && a != INITIAL ::
          && a in h.host && a !in h.live && h.host[a] in h.zones
          && h.zones[h.host[a]].chunkSize == DESC
          && h.zones[h.host[a]].depth < h.zones[a].depth)
    && (forall c | c in h.live :: c in h.host && h.host[c] in h.zones && h.live[c] <= h.zones[h.host[c]].chunkSize)
  }

  /** The used page groups are the descriptor pages, the zone pages and the user's blocks. */
  ghost predicate UsedOk(h: Heap)
  {
    && h.reserved in h.used && h.reserved !in h.blocks
    && (forall a | a in h.zones ::
          && h.zones[a].page in h.used && h.used[h.zones[a].page] == 1
          && h.zones[a].page != h.reserved && h.zones[a].page !in h.blocks)
    && (forall p | p in h.blocks :: p in h.used && h.blocks[p] <= PageAddress(0, h.used[p], h.pageSize))
    && (forall p | p in h.used :: p == h.reserved || p in h.blocks || IsZonePage(h, p))
  }

  ghost predicate IsZonePage(h: Heap, p: nat)
  {
    exists a :: a in h.zones && h.zones[a].page == p
  }

  ghost predicate Inv(h: Heap)
  {
    ZonesOk(h) && HostOk(h) && DescribedOk(h) && UsedOk(h) && PagesApart(h.pageSize, h.addrs)
  }

  /** Every zone but the initial one has a chunk in use. */
  ghost predicate AllBusy(h: Heap)
  {
    forall a | a in h.zones && a != INITIAL :: !Unused(h.zones[a])
  }

  /** Free chunks of one size, over all zones: ZoneInfo::freeChunksCount. */
  ghost function FreeCounts(zones: map<nat, Zone>, chunkSize: nat): map<nat, nat>
  {
    map a | a in zones && zones[a].chunkSize == chunkSize :: |zones[a].free|
  }

  ghost function FreeIn(zones: map<nat, Zone>, chunkSize: nat): nat
  {
    Sum(FreeCounts(zones, chunkSize))
  }

  /** What holds between any two calls of the public interface. */
  ghost predicate Settled(h: Heap)
  {
    Inv(h) && Pending(h) == {} && AllBusy(h) && FreeIn(h.zones, DESC) >= 1
  }

  // ----- zone geometry

  lemma ZoneFacts(h: Heap, z: Zone)
    requires ZoneOk(h, z) && PagesApart(h.pageSize, h.addrs)
    ensures z.chunkSize > 0 && |z.chunks| == ChunkCount(h.pageSize, z.chunkSize) >= 2
    ensures TilesPage(z.chunks, h.addrs[z.page], z.chunkSize, h.pageSize)
    ensures |z.free| <= |z.chunks| && (Unused(z) <==> forall c | c in z.chunks :: c in z.free)
    ensures forall c | c in z.chunks :: c > 0 && c % z.chunkSize == 0
  {
    hide TilesPage, SizeClass, ChunkSet, PageAddress;
    ChunksTilePage(h.addrs[z.page], z.chunkSize, h.pageSize);
    ChunksPositive(z.chunks, h.addrs[z.page], z.chunkSize, h.pageSize);
    FreeCard(z);
  }

  lemma ChunksPositive(chunks: set<nat>, base: nat, chunkSize: nat, pageSize: nat)
    requires TilesPage(chunks, base, chunkSize, pageSize) && base > 0
    ensures forall c | c in chunks :: c > 0
  {
  }

  lemma FreeCard(z: Zone)
    requires Distinct(z.free) && forall c | c in z.free :: c in z.chunks
    ensures |z.free| <= |z.chunks| && (Unused(z) <==> forall c | c in z.chunks :: c in z.free)
  {
    var f := SetOf(z.free);
    DistinctCard(z.free, f);
    assert f <= z.chunks;
    SubsetCard(f, z.chunks);
  }

  lemma {:induction false} SubsetCard(a: set<nat>, b: set<nat>)
    requires a <= b
    ensures |a| <= |b| && (|a| == |b| <==> a == b)
    decreases |b|
  {
    if a != {} {
      var x :| x in a;
      SubsetCard(a - {x}, b - {x});
      assert a == a - {x} + {x} && b == b - {x} + {x};
    } else if b != {} {
      var y :| y in b;
      assert |b| == |b - {y}| + 1;
    }
  }

  /** A chunk belongs to one zone only. */
  lemma OneZone(h: Heap, a: nat, b: nat, c: nat)
    requires ZonesOk(h) && PagesApart(h.pageSize, h.addrs)
    requires a in h.zones && b in h.zones && c in h.zones[a].chunks && c in h.zones[b].chunks
    ensures a == b
  {
    hide ZoneOk, Distinct;
    ZoneFacts(h, h.zones[a]);
    ZoneFacts(h, h.zones[b]);
    PageOfChunk(h, h.zones[a], c);
    PageOfChunk(h, h.zones[b], c);
  }

  lemma PageOfChunk(h: Heap, z: Zone, c: nat)
    requires ZoneOk(h, z) && PagesApart(h.pageSize, h.addrs) && c in z.chunks
    ensures z.page < |h.addrs| && h.addrs[z.page] <= c && c + z.chunkSize <= h.addrs[z.page] + h.pageSize
      && z.chunkSize > 0
  {
    ZoneFacts(h, z);
  }

  // ----- the steps of the zone allocator

  /** Zone::takeChunk on the zone at a. */
  ghost function Take(h: Heap, a: nat): Heap
    requires a in h.zones && h.zones[a].free != []
  {
    var z := h.zones[a];
    h.(zones := h.zones[a := z.(free := z.free[1..])], host := h.host[z.free[0] := a])
  }

  /** Zone::giveChunk of a chunk in use. */
  ghost function Give(h: Heap, c: nat): Heap
    requires c in h.host && h.host[c] in h.zones
  {
    var a := h.host[c];
    var z := h.zones[a];
    h.(zones := h.zones[a := z.(free := [c] + z.free)], host := h.host - {c})
  }

  /** initZone and addZone: the chunk d becomes the descriptor of a zone carved from page p. */
  ghost function Birth(h: Heap, d: nat, p: nat, chunkSize: nat): Heap
    requires chunkSize > 0 && p < |h.addrs| && d in h.host && h.host[d] in h.zones
  {
    var n := ChunkCount(h.pageSize, chunkSize);
    var z := Zone(p, chunkSize, ChunkSet(h.addrs[p], chunkSize, n), Carved(h.addrs[p], chunkSize, n),
                  h.zones[h.host[d]].depth + 1);
    h.(zones := h.zones[d := z], used := h.used[p := 1])
  }

  /** removeZone and clearZone of the zone at a. */
  ghost function Death(h: Heap, a: nat): Heap
    requires a in h.zones
  {
    h.(zones := h.zones - {a}, used := h.used - {h.zones[a].page})
  }

  lemma TakeKeeps(h: Heap, a: nat)
    requires Inv(h) && a in h.zones && h.zones[a].free != []
    ensures Inv(Take(h, a))
    ensures var c := h.zones[a].free[0];
      c !in h.host && c in h.zones[a].chunks && Pending(Take(h, a)) == Pending(h) + {c}
    ensures !Unused(Take(h, a).zones[a])
  {
    hide ZonesOk, HostOk, DescribedOk, UsedOk, PagesApart;
    ZoneSane(h, a);
    FreshChunk(h, a, h.zones[a].free[0]);
    TakeZonesOk(h, a);
    TakeHostOk(h, a);
    TakeDescribedOk(h, a);
    TakeUsedOk(h, a);
    assert Take(h, a).zones.Keys == h.zones.Keys;
  }

  lemma ZoneSane(h: Heap, a: nat)
    requires Inv(h) && a in h.zones
    ensures ZoneOk(h, h.zones[a]) && |h.zones[a].free| <= |h.zones[a].chunks| && |h.zones[a].chunks| >= 2
  {
    ZoneFacts(h, h.zones[a]);
  }

  /** A free chunk is not in use. */
  lemma FreshChunk(h: Heap, a: nat, c: nat)
    requires Inv(h) && a in h.zones && c in h.zones[a].free
    ensures c !in h.host && c in h.zones[a].chunks && c != INITIAL && c !in h.zones && c !in h.live
  {
    ZoneFacts(h, h.zones[a]);
    if c in h.host {
      OneZone(h, a, h.host[c], c);
    }
  }

  lemma TakeZonesOk(h: Heap, a: nat)
    requires ZonesOk(h) && a in h.zones && h.zones[a].free != []
    ensures ZonesOk(Take(h, a))
  {
    hide SizeClass, ChunkSet;
    var g := Take(h, a);
    assert ZoneOk(h, h.zones[a]);
    assert ZoneOk(g, g.zones[a]);
    forall b | b in g.zones ensures ZoneOk(g, g.zones[b]) {
      assert ZoneOk(h, h.zones[b]);
    }
  }

  lemma TakeHostOk(h: Heap, a: nat)
    requires ZonesOk(h) && HostOk(h) && PagesApart(h.pageSize, h.addrs) && a in h.zones && h.zones[a].free != []
    requires h.zones[a].free[0] !in h.host
    ensures HostOk(Take(h, a))
  {
    hide ZonesOk, PagesApart, Distinct;
    var z := h.zones[a];
    var c := z.free[0];
    var g := Take(h, a);
    FreeHead(h, a);
    forall b, d | b in g.zones && d in g.zones[b].chunks && d !in g.zones[b].free
      ensures d in g.host && g.host[d] == b
    {
      if d == c {
        OneZone(h, a, b, c);
      }
    }
    forall d | d in g.host
      ensures g.host[d] in g.zones && d in g.zones[g.host[d]].chunks && d !in g.zones[g.host[d]].free
    {
    }
  }

  lemma FreeHead(h: Heap, a: nat)
    requires ZonesOk(h) && a in h.zones && h.zones[a].free != []
    ensures var free := h.zones[a].free;
      && free[0] in h.zones[a].chunks && free[0] !in free[1..]
      && forall d :: d in free <==> d == free[0] || d in free[1..]
  {
    hide SizeClass, ChunkSet;
    assert ZoneOk(h, h.zones[a]);
    var free := h.zones[a].free;
    assert free == [free[0]] + free[1..];
  }

  lemma TakeDescribedOk(h: Heap, a: nat)
    requires DescribedOk(h) && a in h.zones && h.zones[a].free != [] && h.zones[a].free[0] !in h.host
    ensures DescribedOk(Take(h, a))
  {
  }

  lemma TakeUsedOk(h: Heap, a: nat)
    requires UsedOk(h) && a in h.zones && h.zones[a].free != []
    ensures UsedOk(Take(h, a))
  {
    SameZonePages(h, Take(h, a));
  }

  /** UsedOk only depends on the pages of the zones. */
  lemma SameZonePages(h: Heap, g: Heap)
    requires UsedOk(h) && g.zones.Keys == h.zones.Keys
    requires forall a | a in h.zones :: g.zones[a].page == h.zones[a].page
    requires g.reserved == h.reserved && g.used == h.used && g.blocks == h.blocks && g.pageSize == h.pageSize
    ensures UsedOk(g)
  {
    forall p | p in g.used ensures p == g.reserved || p in g.blocks || IsZonePage(g, p) {
      if IsZonePage(h, p) {
        var a :| a in h.zones && h.zones[a].page == p;
        assert g.zones[a].page == p;
      }
    }
  }

  lemma GiveKeeps(h: Heap, c: nat)
    requires Inv(h) && c in Pending(h)
    ensures Inv(Give(h, c)) && Pending(Give(h, c)) == Pending(h) - {c}
    ensures |Give(h, c).zones[h.host[c]].free| == |h.zones[h.host[c]].free| + 1
  {
    hide ZonesOk, DescribedOk, UsedOk, PagesApart;
    GiveZonesOk(h, c);
    GiveHostOk(h, c);
    GiveDescribedOk(h, c);
    SameZonePages(h, Give(h, c));
    assert Give(h, c).zones.Keys == h.zones.Keys;
  }

  lemma GiveDescribedOk(h: Heap, c: nat)
    requires DescribedOk(h) && c in Pending(h) && h.host[c] in h.zones
    ensures DescribedOk(Give(h, c))
  {
    var g := Give(h, c);
    assert c !in h.live && c !in h.zones;
    forall b ensures b in h.zones <==> b in g.zones { }
    forall b | b in h.zones
      ensures g.zones[b].chunkSize == h.zones[b].chunkSize && g.zones[b].depth == h.zones[b].depth { }
  }

  lemma GiveZonesOk(h: Heap, c: nat)
    requires ZonesOk(h) && HostOk(h) && c in h.host
    ensures ZonesOk(Give(h, c))
  {
    hide ZoneOk;
    var g := Give(h, c);
    var a := h.host[c];
    LongerFreeOk(h, h.zones[a], c);
    forall b | b in g.zones ensures ZoneOk(g, g.zones[b]) {
      SameZoneOk(h, g, g.zones[b]);
    }
  }

  lemma LongerFreeOk(h: Heap, z: Zone, c: nat)
    requires ZoneOk(h, z) && c in z.chunks && c !in z.free
    ensures ZoneOk(h, z.(free := [c] + z.free))
  {
    hide SizeClass, ChunkSet;
  }

  lemma GiveHostOk(h: Heap, c: nat)
    requires HostOk(h) && c in h.host
    ensures HostOk(Give(h, c))
  {
    var g := Give(h, c);
    var a := h.host[c];
    assert g.zones[a].free == [c] + h.zones[a].free;
    forall b, d | b in g.zones && d in g.zones[b].chunks && d !in g.zones[b].free ensures d in g.host
      && g.host[d] == b {
      assert d !in h.zones[b].free;
    }
    forall d | d in g.host
      ensures g.host[d] in g.zones && d in g.zones[g.host[d]].chunks && d !in g.zones[g.host[d]].free
    {
    }
  }

  lemma BirthKeeps(h: Heap, d: nat, p: nat, chunkSize: nat)
    requires Inv(h) && d in Pending(h) && h.zones[h.host[d]].chunkSize == DESC
    requires p < |h.addrs| && p !in h.used && SizeClass(chunkSize, h.pageSize)
    ensures chunkSize > 0 && Inv(Birth(h, d, p, chunkSize))
    ensures d != INITIAL && Pending(Birth(h, d, p, chunkSize)) == Pending(h) - {d}
    ensures Unused(Birth(h, d, p, chunkSize).zones[d]) && |Birth(h, d, p, chunkSize).zones[d].free| >= 2
  {
    hide ZonesOk, HostOk, DescribedOk, UsedOk, PagesApart, SizeClass;
    SizeClassDivides(chunkSize, h.pageSize);
    InUsePositive(h, d);
    BirthZonesOk(h, d, p, chunkSize);
    BirthHostOk(h, d, p, chunkSize);
    BirthDescribedOk(h, d, p, chunkSize);
    BirthUsedOk(h, d, p, chunkSize);
    var g := Birth(h, d, p, chunkSize);
    ZoneSane(g, d);
    BornUnused(h.addrs[p], chunkSize, h.pageSize);
  }

  lemma BornUnused(base: nat, chunkSize: nat, pageSize: nat)
    requires SizeClass(chunkSize, pageSize)
    ensures chunkSize > 0
    ensures |Carved(base, chunkSize, ChunkCount(pageSize, chunkSize))|
      == |ChunkSet(base, chunkSize, ChunkCount(pageSize, chunkSize))| >= 2
  {
    ChunksTilePage(base, chunkSize, pageSize);
    CarvedFacts(base, chunkSize, ChunkCount(pageSize, chunkSize));
  }

  lemma InUsePositive(h: Heap, c: nat)
    requires Inv(h) && c in h.host
    ensures c != INITIAL && h.host[c] in h.zones && c in h.zones[h.host[c]].chunks
  {
    ZoneFacts(h, h.zones[h.host[c]]);
  }

  lemma BirthZonesOk(h: Heap, d: nat, p: nat, chunkSize: nat)
    requires ZonesOk(h) && UsedOk(h) && d in h.host && h.host[d] in h.zones && d !in h.zones && d != INITIAL
    requires p < |h.addrs| && p !in h.used && SizeClass(chunkSize, h.pageSize) && chunkSize > 0
    ensures ZonesOk(Birth(h, d, p, chunkSize))
  {
    hide SizeClass, ChunkSet, Carved;
    var g := Birth(h, d, p, chunkSize);
    CarvedFacts(h.addrs[p], chunkSize, ChunkCount(h.pageSize, chunkSize));
    assert ZoneOk(g, g.zones[d]);
    forall b | b in g.zones ensures ZoneOk(g, g.zones[b]) {
      if b != d { assert ZoneOk(h, h.zones[b]); }
    }
    forall b | b in h.zones ensures h.zones[b].page != p { }
  }

  lemma BirthHostOk(h: Heap, d: nat, p: nat, chunkSize: nat)
    requires HostOk(h) && d in h.host && h.host[d] in h.zones && d !in h.zones && p < |h.addrs| && chunkSize > 0
    ensures HostOk(Birth(h, d, p, chunkSize))
  {
    hide ChunkSet, Carved;
    var g := Birth(h, d, p, chunkSize);
    CarvedFacts(h.addrs[p], chunkSize, ChunkCount(h.pageSize, chunkSize));
    forall c | c in g.zones[d].chunks ensures c in g.zones[d].free { }
  }

  lemma BirthDescribedOk(h: Heap, d: nat, p: nat, chunkSize: nat)
    requires DescribedOk(h) && HostOk(h) && d in Pending(h) && h.host[d] in h.zones
      && h.zones[h.host[d]].chunkSize == DESC
    requires p < |h.addrs| && chunkSize > 0
    ensures DescribedOk(Birth(h, d, p, chunkSize))
  {
    hide ChunkSet, Carved;
  }

  lemma BirthUsedOk(h: Heap, d: nat, p: nat, chunkSize: nat)
    requires UsedOk(h) && d in h.host && h.host[d] in h.zones && d !in h.zones && p < |h.addrs| && chunkSize > 0
    requires p !in h.used
    ensures UsedOk(Birth(h, d, p, chunkSize))
  {
    hide ChunkSet, Carved;
    var g := Birth(h, d, p, chunkSize);
    forall q | q in g.used ensures q == g.reserved || q in g.blocks || IsZonePage(g, q) {
      if q == p {
        assert g.zones[d].page == q;
      } else if IsZonePage(h, q) {
        var a :| a in h.zones && h.zones[a].page == q;
        assert g.zones[a].page == q;
      }
    }
  }

  lemma DeathKeeps(h: Heap, a: nat)
    requires Inv(h) && a in h.zones && a != INITIAL && Unused(h.zones[a])
    ensures Inv(Death(h, a)) && a in Pending(Death(h, a)) && Pending(Death(h, a)) == Pending(h) + {a}
    ensures h.zones[a].page in h.used && h.zones[a].page != h.reserved
    ensures Death(h, a).zones[h.host[a]].chunkSize == DESC
  {
    hide UsedOk, PagesApart, ZonesOk, HostOk, DescribedOk, Pending;
    UnusedHostsNothing(h, a);
    DeathUsedOk(h, a);
    DeathZonesOk(h, a);
    DeathHostOk(h, a);
    DeathDescribedOk(h, a);
  }

  lemma DeathZonesOk(h: Heap, a: nat)
    requires ZonesOk(h) && a in h.zones && a != INITIAL
    ensures ZonesOk(Death(h, a))
  {
    hide ZoneOk;
    var g := Death(h, a);
    forall b | b in g.zones ensures ZoneOk(g, g.zones[b]) { SameZoneOk(h, g, h.zones[b]); }
  }

  lemma DeathHostOk(h: Heap, a: nat)
    requires HostOk(h) && a in h.zones && forall c | c in h.host :: h.host[c] != a
    ensures HostOk(Death(h, a))
  {
  }

  lemma DeathDescribedOk(h: Heap, a: nat)
    requires DescribedOk(h) && a in h.zones && a != INITIAL && forall c | c in h.host :: h.host[c] != a
    ensures DescribedOk(Death(h, a))
    ensures a in Pending(Death(h, a)) && Pending(Death(h, a)) == Pending(h) + {a}
    ensures Death(h, a).host[a] in Death(h, a).zones && Death(h, a).zones[h.host[a]].chunkSize == DESC
  {
    var g := Death(h, a);
    assert a in h.host && a !in h.live;
    forall b | b in g.zones && b != INITIAL
      ensures b in g.host && b !in g.live && g.host[b] in g.zones
      ensures g.zones[g.host[b]].chunkSize == DESC && g.zones[g.host[b]].depth < g.zones[b].depth
    {
      assert b in h.zones;
    }
    forall c | c in g.live ensures c in g.host && g.host[c] in g.zones && g.live[c] <= g.zones[g.host[c]].chunkSize {
      assert c in h.live;
    }
  }

  lemma SameZoneOk(h: Heap, g: Heap, z: Zone)
    requires ZoneOk(h, z) && g.addrs == h.addrs && g.pageSize == h.pageSize
    ensures ZoneOk(g, z)
  {
  }

  lemma UnusedHostsNothing(h: Heap, a: nat)
    requires Inv(h) && a in h.zones && Unused(h.zones[a])
    ensures forall c | c in h.host :: h.host[c] != a
  {
    ZoneFacts(h, h.zones[a]);
  }

  lemma DeathUsedOk(h: Heap, a: nat)
    requires UsedOk(h) && ZonesOk(h) && a in h.zones
    ensures UsedOk(Death(h, a)) && h.zones[a].page in h.used && h.zones[a].page != h.reserved
  {
    hide ZoneOk;
    var g := Death(h, a);
    forall q | q in g.used ensures q == g.reserved || q in g.blocks || IsZonePage(g, q) {
      if IsZonePage(h, q) {
        var b :| b in h.zones && h.zones[b].page == q;
        assert g.zones[b].page == q;
      }
    }
  }
}
