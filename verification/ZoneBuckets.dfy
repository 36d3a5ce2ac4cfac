/** The bucket table of the zone allocator (ZoneAllocator.hpp): one list of zones per chunk size, with a
    count of their free chunks. */
module ZoneBuckets {
  import opened Accounting
  import opened Bits
  import opened HeapModel
  import opened HeapSteps
  import opened ListNode
  import opened PageAllocation
  import opened Regions
  import opened Sums

  const MAX_ZONE_IDX: nat := 8
  const MAX_PAGE_SIZE: nat := 4096

  /** One entry of m_zones. */
  datatype ZoneInfo = ZoneInfo(head: Ptr, freeChunksCount: nat)

  /** m_zones.fill({}). */
  function EmptyTable(): seq<ZoneInfo>
  {
    seq(MAX_ZONE_IDX, _ => ZoneInfo(Null, 0))
  }

  ghost function EmptyLists(): seq<seq<nat>>
  {
    seq(MAX_ZONE_IDX, _ => [])
  }

  /** The chunk size of bucket i. */
  function BucketSize(i: nat): nat
  {
    Pow2(i + 4)
  }

  lemma Log2Of16(n: nat)
    requires n >= MINIMAL_ALLOC
    ensures Log2(n) >= 4
  {
    assert Pow2(4) == 16 by { assert Pow2(2) == 4; }
    Log2Unique(16, 4);
    Log2Mono(16, n);
  }

  /** detail::zoneIdx. */
  function ZoneIdx(chunkSize: nat): nat
    requires chunkSize >= MINIMAL_ALLOC
  {
    Log2Of16(chunkSize);
    Log2(chunkSize) - 4
  }

  /** A power of two has bucket i exactly when it is the chunk size of bucket i. */
  lemma ZoneIdxExact(chunkSize: nat, i: nat)
    requires PowerOf2(chunkSize) && chunkSize >= MINIMAL_ALLOC
    ensures ZoneIdx(chunkSize) == i <==> chunkSize == BucketSize(i)
  {
    Log2Of16(chunkSize);
    var k: nat :| chunkSize == Pow2(k);
    Log2Unique(chunkSize, k);
    if chunkSize == BucketSize(i) {
      Log2Unique(chunkSize, i + 4);
    }
  }

  /** Every chunk size below the page size has one of the eight buckets exactly when the page size is at
      most 4096; init accepts larger page sizes too. */
  lemma BucketsSuffice(pageSize: nat)
    requires PowerOf2(pageSize) && pageSize >= MINIMAL_PAGE_SIZE
    ensures pageSize <= MAX_PAGE_SIZE <==> forall cs | SizeClass(cs, pageSize) :: ZoneIdx(cs) < MAX_ZONE_IDX
  {
    var k: nat :| pageSize == Pow2(k);
    assert Pow2(4) == 16 && Pow2(6) == 64;
    Pow2Add(6, 6);
    assert Pow2(7) == 128 && Pow2(12) == MAX_PAGE_SIZE;
    if pageSize <= MAX_PAGE_SIZE {
      forall cs | SizeClass(cs, pageSize) ensures ZoneIdx(cs) < MAX_ZONE_IDX {
        var j: nat :| cs == Pow2(j);
        Log2Unique(cs, j);
        if j >= 12 { Pow2Mono(12, j); }
      }
    } else {
      if k < 13 { Pow2Mono(k, 12); }
      Pow2Mono(13, k);
      var cs := Pow2(12);
      assert SizeClass(cs, pageSize);
      Log2Unique(cs, 12);
      assert ZoneIdx(cs) == 8;
    }
  }

  /** For pages of 8192 bytes, which init accepts, chunks of 4096 bytes have no bucket. */
  lemma NoBucketAt8192()
    ensures IsValidPageSize(8192) && SizeClass(4096, 8192) && ZoneIdx(4096) == MAX_ZONE_IDX
  {
    hide BitAnd;
    assert Pow2(6) == 64;
    Pow2Add(6, 6);
    assert 4096 == Pow2(12) && 8192 == Pow2(13);
    IsPowerOf2Correct(8192);
    ZoneIdxExact(4096, MAX_ZONE_IDX);
  }

  lemma BucketOf(cs: nat, pageSize: nat)
    requires SizeClass(cs, pageSize) && pageSize <= MAX_PAGE_SIZE
    ensures cs >= MINIMAL_ALLOC && ZoneIdx(cs) < MAX_ZONE_IDX && BucketSize(ZoneIdx(cs)) == cs
  {
    ZoneIdxExact(cs, ZoneIdx(cs));
    Pow2Add(6, 6);
    assert Pow2(6) == 64;
    if ZoneIdx(cs) >= MAX_ZONE_IDX {
      Pow2Mono(12, ZoneIdx(cs) + 4);
    }
  }

  /** m_zoneDescIdx. */
  const DESC_IDX: nat := if DESC == 16 then 0 else if DESC == 32 then 1 else 2

  /** sizeof(Zone) rounds up to the descriptor chunk size, which has a bucket of its own. */
  lemma DescriptorClass()
    ensures ClassOf(SIZEOF_ZONE) == DESC && PowerOf2(DESC) && BucketSize(DESC_IDX) == DESC
    ensures ZoneIdx(DESC) == DESC_IDX < MAX_ZONE_IDX
  {
    assert Pow2(4) == 16 && Pow2(5) == 32 && Pow2(6) == 64;
    CeilPow2Is(if SIZEOF_ZONE < MINIMAL_ALLOC then MINIMAL_ALLOC else SIZEOF_ZONE, DESC_IDX + 4);
    ZoneIdxExact(DESC, DESC_IDX);
  }

  // ----- the bucket table

  /** Bucket i lists the zones of its chunk size and counts their free chunks. */
  ghost predicate Bucketed(zs: map<nat, Zone>, infos: seq<ZoneInfo>, lists: seq<seq<nat>>, nodes: map<nat, Node>)
  {
    && |infos| == MAX_ZONE_IDX && |lists| == MAX_ZONE_IDX
    && (forall i: nat | i < MAX_ZONE_IDX ::
          && Linked(nodes, lists[i]) && infos[i].head == Head(lists[i])
          && infos[i].freeChunksCount == FreeIn(zs, BucketSize(i)))
    && (forall i: nat, a: nat | i < MAX_ZONE_IDX :: a in lists[i] <==> a in zs && zs[a].chunkSize == BucketSize(i))
  }

  lemma BucketEntry(zs: map<nat, Zone>, infos: seq<ZoneInfo>, lists: seq<seq<nat>>, nodes: map<nat, Node>, i: nat)
    requires Bucketed(zs, infos, lists, nodes) && i < MAX_ZONE_IDX
    ensures |infos| == |lists| == MAX_ZONE_IDX
    ensures Linked(nodes, lists[i]) && infos[i].head == Head(lists[i])
    ensures infos[i].freeChunksCount == FreeIn(zs, BucketSize(i))
    ensures forall a: nat :: a in lists[i] <==> a in zs && zs[a].chunkSize == BucketSize(i)
  {
  }

  lemma BucketUpdate(zs: map<nat, Zone>, infos: seq<ZoneInfo>, lists: seq<seq<nat>>, nodes: map<nat, Node>, a: nat,
      z: Zone, i: nat, count: nat)
    requires Bucketed(zs, infos, lists, nodes) && a in zs && z.chunkSize == zs[a].chunkSize
    requires i < MAX_ZONE_IDX && BucketSize(i) == z.chunkSize
    requires count + |zs[a].free| == infos[i].freeChunksCount + |z.free|
    ensures Bucketed(zs[a := z], infos[i := infos[i].(freeChunksCount := count)], lists, nodes)
  {
    hide Linked, FreeIn, BucketSize;
    forall j: nat | j < MAX_ZONE_IDX ensures BucketSize(j) == BucketSize(i) ==> j == i {
      BucketsDiffer(i, j);
    }
    forall j: nat | j < MAX_ZONE_IDX
      ensures FreeIn(zs[a := z], BucketSize(j)) == if j == i then count else infos[j].freeChunksCount
    {
      FreeInUpdate(zs, a, z, BucketSize(j));
    }
  }

  lemma BucketsDiffer(i: nat, j: nat)
    ensures BucketSize(i) == BucketSize(j) <==> i == j
  {
    if i < j { Pow2Mono(i + 4, j + 4); }
    if j < i { Pow2Mono(j + 4, i + 4); }
  }

  lemma BucketInsert(zs: map<nat, Zone>, infos: seq<ZoneInfo>, lists: seq<seq<nat>>, nodes: map<nat, Node>,
      nodes': map<nat, Node>,
                     a: nat, z: Zone, i: nat)
    requires Bucketed(zs, infos, lists, nodes) && a !in zs
    requires i < MAX_ZONE_IDX && BucketSize(i) == z.chunkSize
    requires Linked(nodes', [a] + lists[i])
    requires forall q | q in nodes && q !in [a] + lists[i] :: q in nodes' && nodes'[q] == nodes[q]
    ensures Bucketed(zs[a := z], infos[i := ZoneInfo(At(a), infos[i].freeChunksCount + |z.free|)],
                     lists[i := [a] + lists[i]], nodes')
  {
    hide FreeIn, BucketSize;
    forall j: nat | j < MAX_ZONE_IDX ensures BucketSize(j) == BucketSize(i) ==> j == i { BucketsDiffer(i, j); }
    forall j: nat | j < MAX_ZONE_IDX
      ensures FreeIn(zs[a := z], BucketSize(j)) == infos[j].freeChunksCount + if j == i then |z.free| else 0
    {
      FreeInInsert(zs, a, z, BucketSize(j));
    }
    forall j: nat | j < MAX_ZONE_IDX && j != i ensures Linked(nodes', lists[j]) {
      forall x: nat | x in lists[j] ensures x !in [a] + lists[i] {
        assert x in zs && zs[x].chunkSize == BucketSize(j);
      }
      LinkedFrame(nodes, nodes', lists[j]);
    }
  }

  lemma BucketRemove(zs: map<nat, Zone>, infos: seq<ZoneInfo>, lists: seq<seq<nat>>, nodes: map<nat, Node>,
      nodes': map<nat, Node>,
                     a: nat, i: nat)
    requires Bucketed(zs, infos, lists, nodes) && a in zs
    requires i < MAX_ZONE_IDX && BucketSize(i) == zs[a].chunkSize && a in lists[i]
    requires Linked(nodes', Without(lists[i], a))
    requires forall q | q in nodes && q !in lists[i] :: q in nodes' && nodes'[q] == nodes[q]
    ensures infos[i].freeChunksCount >= |zs[a].free|
    ensures Bucketed(zs - {a},
      infos[i := ZoneInfo(Head(Without(lists[i], a)), infos[i].freeChunksCount - |zs[a].free|)],
                     lists[i := Without(lists[i], a)], nodes')
  {
    hide FreeIn, BucketSize, Without;
    LinkedIsDistinct(nodes, lists[i]);
    WithoutFacts(lists[i], a);
    FreeInRemove(zs, a, BucketSize(i));
    forall j: nat | j < MAX_ZONE_IDX ensures BucketSize(j) == BucketSize(i) ==> j == i { BucketsDiffer(i, j); }
    forall j: nat | j < MAX_ZONE_IDX
      ensures FreeIn(zs - {a}, BucketSize(j)) + (if j == i then |zs[a].free| else 0) == infos[j].freeChunksCount
    {
      FreeInRemove(zs, a, BucketSize(j));
    }
    forall j: nat | j < MAX_ZONE_IDX && j != i ensures Linked(nodes', lists[j]) {
      forall x: nat | x in lists[j] ensures x !in lists[i] {
        assert x in zs && zs[x].chunkSize == BucketSize(j);
      }
      LinkedFrame(nodes, nodes', lists[j]);
    }
  }

  // ----- free lists of all zones share the chunk links

  ghost predicate ChunkLists(zs: map<nat, Zone>, nodes: map<nat, Node>)
  {
    forall a | a in zs :: Linked(nodes, zs[a].free)
  }

  /** Changing the free list of one zone leaves those of the others alone. */
  lemma ChunkListsUpdate(h: Heap, a: nat, free: seq<nat>, nodes: map<nat, Node>, nodes': map<nat, Node>)
    requires ZonesOk(h) && PagesApart(h.pageSize, h.addrs) && a in h.zones && ChunkLists(h.zones, nodes)
    requires Linked(nodes', free)
    requires forall q | q in nodes && q !in h.zones[a].chunks :: q in nodes' && nodes'[q] == nodes[q]
    ensures ChunkLists(h.zones[a := h.zones[a].(free := free)], nodes')
  {
    hide ZoneOk, Linked;
    var zs := h.zones[a := h.zones[a].(free := free)];
    forall b | b in zs ensures Linked(nodes', zs[b].free) {
      if b != a {
        assert ZoneOk(h, h.zones[b]);
        forall x | x in h.zones[b].free ensures x !in h.zones[a].chunks {
          FreeIsChunk(h, b, x);
          if x in h.zones[a].chunks { OneZone(h, a, b, x); }
        }
        LinkedFrame(nodes, nodes', h.zones[b].free);
      }
    }
  }

  lemma FreeIsChunk(h: Heap, b: nat, x: nat)
    requires ZonesOk(h) && b in h.zones && x in h.zones[b].free
    ensures x in h.zones[b].chunks && forall c | c in h.zones[b].free :: c in h.zones[b].chunks
  {
    assert ZoneOk(h, h.zones[b]);
  }

  /** Carving a new page does not touch the free lists of the existing zones. */
  lemma ChunkListsInsert(h: Heap, d: nat, z: Zone, nodes: map<nat, Node>, nodes': map<nat, Node>)
    requires Inv(h) && d !in h.zones && ChunkLists(h.zones, nodes) && Linked(nodes', z.free)
    requires ZoneOk(h, z) && z.page !in h.used
    requires forall q | q in nodes && q !in z.free :: q in nodes' && nodes'[q] == nodes[q]
    ensures ChunkLists(h.zones[d := z], nodes')
  {
    hide ZoneOk, Linked;
    var zs := h.zones[d := z];
    forall b | b in zs ensures Linked(nodes', zs[b].free) {
      if b != d {
        assert ZoneOk(h, h.zones[b]);
        forall x | x in h.zones[b].free ensures x !in z.free {
          if x in z.free { OtherPage(h, h.zones[b], z, x); }
        }
        LinkedFrame(nodes, nodes', h.zones[b].free);
      }
    }
  }

  lemma OtherPage(h: Heap, y: Zone, z: Zone, x: nat)
    requires PagesApart(h.pageSize, h.addrs) && ZoneOk(h, y) && ZoneOk(h, z) && x in y.free && x in z.free
    ensures y.page == z.page
  {
    PageOfChunk(h, y, x);
    PageOfChunk(h, z, x);
  }

  /** getFreeZone on a list of zones: the first one with a free chunk. */
  ghost function FirstWithFree(zs: map<nat, Zone>, s: seq<nat>): Ptr
    requires forall a | a in s :: a in zs
  {
    if s == [] then Null
    else if zs[s[0]].free != [] then At(s[0])
    else FirstWithFree(zs, s[1..])
  }

  lemma {:induction false} FirstWithFreeFacts(zs: map<nat, Zone>, s: seq<nat>)
    requires forall a | a in s :: a in zs
    ensures var r := FirstWithFree(zs, s);
      && (r.At? ==> r.addr in s && zs[r.addr].free != [])
      && (r.Null? <==> forall a | a in s :: zs[a].free == [])
  {
    if s != [] && zs[s[0]].free == [] {
      FirstWithFreeFacts(zs, s[1..]);
      forall a | a in s ensures a == s[0] || a in s[1..] { }
    }
  }

  /** What the first one means: no zone before it in the list has a free chunk. */
  lemma {:induction false} NoneBefore(zs: map<nat, Zone>, s: seq<nat>) returns (j: nat)
    requires (forall a | a in s :: a in zs) && FirstWithFree(zs, s).At?
    ensures j < |s| && FirstWithFree(zs, s) == At(s[j]) && zs[s[j]].free != []
    ensures forall i: nat | i < j :: zs[s[i]].free == []
  {
    j := 0;
    if zs[s[0]].free == [] {
      var k := NoneBefore(zs, s[1..]);
      j := k + 1;
      forall i: nat | i < j ensures zs[s[i]].free == [] {
        if i > 0 { assert s[i] == s[1..][i - 1]; }
      }
    }
  }

  lemma EmptyBuckets(nodes: map<nat, Node>)
    ensures Bucketed(map[], EmptyTable(), EmptyLists(), nodes)
  {
    forall i: nat | i < MAX_ZONE_IDX ensures FreeIn(map[], BucketSize(i)) == 0 {
      assert FreeCounts(map[], BucketSize(i)) == map[];
    }
  }

  /** The zone d is the head of the bucket of its chunk size. */
  ghost predicate HeadOfBucket(lists: seq<seq<nat>>, chunkSize: nat, d: nat)
  {
    && chunkSize >= MINIMAL_ALLOC && ZoneIdx(chunkSize) < |lists|
    && lists[ZoneIdx(chunkSize)] != [] && lists[ZoneIdx(chunkSize)][0] == d
  }

  /** a is listed in one of the first i buckets. */
  ghost predicate BucketBelow(lists: seq<seq<nat>>, i: nat, a: nat)
  {
    exists j: nat :: j < i && j < |lists| && a in lists[j]
  }

  lemma NextBucketBelow(lists: seq<seq<nat>>, i: nat, zs: map<nat, Zone>, chunk: nat)
    requires i < |lists|
    requires forall b | b in zs && chunk in zs[b].chunks :: !BucketBelow(lists, i, b)
    requires forall k: nat | k < |lists[i]| :: lists[i][k] in zs && chunk !in zs[lists[i][k]].chunks
    ensures forall b | b in zs && chunk in zs[b].chunks :: !BucketBelow(lists, i + 1, b)
  {
    forall b | b in zs && chunk in zs[b].chunks ensures !BucketBelow(lists, i + 1, b) {
      BucketBelowStep(lists, i, b);
    }
  }

  lemma BucketBelowStep(lists: seq<seq<nat>>, i: nat, b: nat)
    requires i < |lists|
    ensures BucketBelow(lists, i + 1, b) ==> BucketBelow(lists, i, b) || b in lists[i]
  {
    if BucketBelow(lists, i + 1, b) && b !in lists[i] {
      var j: nat :| j < i + 1 && j < |lists| && b in lists[j];
      assert j < i;
    }
  }

  /** The links of an unlisted zone do not matter to the buckets. */
  lemma BucketsIgnore(zs: map<nat, Zone>, infos: seq<ZoneInfo>, lists: seq<seq<nat>>, nodes: map<nat, Node>,
      nodes': map<nat, Node>, a: nat)
    requires Bucketed(zs, infos, lists, nodes) && a !in zs
    requires forall q | q in nodes && q != a :: q in nodes' && nodes'[q] == nodes[q]
    ensures Bucketed(zs, infos, lists, nodes')
  {
    hide FreeIn, BucketSize;
    forall i: nat | i < MAX_ZONE_IDX ensures Linked(nodes', lists[i]) {
      LinkedFrame(nodes, nodes', lists[i]);
    }
  }

  lemma FewerChunkLists(zs: map<nat, Zone>, nodes: map<nat, Node>, a: nat)
    requires ChunkLists(zs, nodes)
    ensures ChunkLists(zs - {a}, nodes)
  {
  }

  // ----- what getStats adds up

  /** The zones of the first i buckets. */
  ghost function Below(zs: map<nat, Zone>, i: nat): map<nat, Zone>
  {
    map a | a in zs && zs[a].chunkSize < BucketSize(i) :: zs[a]
  }

  ghost predicate Classed(zs: map<nat, Zone>, pageSize: nat)
  {
    pageSize <= MAX_PAGE_SIZE && forall a | a in zs :: SizeClass(zs[a].chunkSize, pageSize)
  }

  lemma BucketsOrdered(i: nat, j: nat)
    ensures BucketSize(i) < BucketSize(j) <==> i < j
  {
    if i < j { Pow2Mono(i + 4, j + 4); }
    if j < i { Pow2Mono(j + 4, i + 4); }
  }

  /** The eight buckets hold every zone. */
  lemma BelowEnds(zs: map<nat, Zone>, pageSize: nat)
    requires Classed(zs, pageSize)
    ensures Below(zs, 0) == map[] && Below(zs, MAX_ZONE_IDX) == zs
  {
    hide BucketSize, SizeClass, ZoneIdx;
    forall a | a in zs ensures BucketSize(0) <= zs[a].chunkSize < BucketSize(MAX_ZONE_IDX) {
      BucketOf(zs[a].chunkSize, pageSize);
      BucketsOrdered(ZoneIdx(zs[a].chunkSize), 0);
      BucketsOrdered(ZoneIdx(zs[a].chunkSize), MAX_ZONE_IDX);
    }
  }

  /** A chunk size below that of bucket i + 1 is below that of bucket i or equal to it. */
  ghost predicate Grows(cs: nat, i: nat)
  {
    cs < BucketSize(i + 1) <==> cs < BucketSize(i) || cs == BucketSize(i)
  }

  ghost predicate BelowGrows(zs: map<nat, Zone>, i: nat)
  {
    forall a | a in zs :: Grows(zs[a].chunkSize, i)
  }

  lemma NextBelow(cs: nat, pageSize: nat, i: nat)
    requires SizeClass(cs, pageSize) && pageSize <= MAX_PAGE_SIZE
    ensures Grows(cs, i)
  {
    hide BucketSize, SizeClass, ZoneIdx;
    BucketOf(cs, pageSize);
    BucketsOrdered(ZoneIdx(cs), i);
    BucketsOrdered(ZoneIdx(cs), i + 1);
    BucketsDiffer(ZoneIdx(cs), i);
  }

  /** Bucket i adds its zones and its free chunks to those of the buckets before. */
  lemma BelowNext(zs: map<nat, Zone>, infos: seq<ZoneInfo>, lists: seq<seq<nat>>, nodes: map<nat, Node>,
      pageSize: nat, i: nat)
    requires Bucketed(zs, infos, lists, nodes) && Classed(zs, pageSize) && i < MAX_ZONE_IDX
    ensures |infos| == |lists| == MAX_ZONE_IDX
    ensures |Below(zs, i + 1)| == |Below(zs, i)| + |lists[i]|
    ensures Sum(FreeChunkBytes(Below(zs, i + 1)))
         == Sum(FreeChunkBytes(Below(zs, i))) + Times(infos[i].freeChunksCount, BucketSize(i))
  {
    hide Bucketed, BucketSize, SizeClass, Sum, Times, FreeIn, Linked;
    BucketEntry(zs, infos, lists, nodes, i);
    LinkedIsDistinct(nodes, lists[i]);
    var x := FreeCounts(zs, BucketSize(i)).Keys;
    DistinctCard(lists[i], x);
    forall a | a in zs ensures Grows(zs[a].chunkSize, i) {
      NextBelow(zs[a].chunkSize, pageSize, i);
    }
    BelowSplit(zs, i);
    SumSplit(FreeChunkBytes(Below(zs, i + 1)), x);
    SumScale(FreeCounts(zs, BucketSize(i)), BucketSize(i));
    assert FreeIn(zs, BucketSize(i)) == Sum(FreeCounts(zs, BucketSize(i))) by { FreeInMeaning(zs, BucketSize(i)); }
  }

  lemma FreeInMeaning(zs: map<nat, Zone>, cs: nat)
    ensures FreeIn(zs, cs) == Sum(FreeCounts(zs, cs))
  {
  }

  lemma BelowSplit(zs: map<nat, Zone>, i: nat)
    requires BelowGrows(zs, i)
    ensures var x, m := FreeCounts(zs, BucketSize(i)), FreeChunkBytes(Below(zs, i + 1));
      && Only(m, x.Keys) == Scaled(x, BucketSize(i)) && m - x.Keys == FreeChunkBytes(Below(zs, i))
      && |Below(zs, i + 1)| == |Below(zs, i)| + |x.Keys|
  {
    hide *;
    var x, m := FreeCounts(zs, BucketSize(i)), FreeChunkBytes(Below(zs, i + 1));
    BelowKeys(zs, i);
    BelowCard(Below(zs, i + 1), Below(zs, i), x.Keys);
    forall a ensures a in Only(m, x.Keys) <==> a in Scaled(x, BucketSize(i)) { BelowZone(zs, i, a); }
    forall a | a in Only(m, x.Keys) ensures Only(m, x.Keys)[a] == Scaled(x, BucketSize(i))[a] { BelowZone(zs, i, a); }
    forall a ensures a in m - x.Keys <==> a in FreeChunkBytes(Below(zs, i)) { BelowZone(zs, i, a); }
    forall a | a in m - x.Keys ensures (m - x.Keys)[a] == FreeChunkBytes(Below(zs, i))[a] { BelowZone(zs, i, a); }
  }

  lemma BelowZone(zs: map<nat, Zone>, i: nat, a: nat)
    requires BelowGrows(zs, i)
    ensures var x, m := FreeCounts(zs, BucketSize(i)), FreeChunkBytes(Below(zs, i + 1));
      && (a in Only(m, x.Keys) <==> a in Scaled(x, BucketSize(i)))
      && (a in Only(m, x.Keys) ==> Only(m, x.Keys)[a] == Scaled(x, BucketSize(i))[a])
      && (a in m - x.Keys <==> a in FreeChunkBytes(Below(zs, i)))
      && (a in m - x.Keys ==> (m - x.Keys)[a] == FreeChunkBytes(Below(zs, i))[a])
  {
    hide BucketSize, Times;
  }

  lemma BelowKeys(zs: map<nat, Zone>, i: nat)
    requires BelowGrows(zs, i)
    ensures Below(zs, i + 1).Keys == Below(zs, i).Keys + FreeCounts(zs, BucketSize(i)).Keys
    ensures Below(zs, i).Keys !! FreeCounts(zs, BucketSize(i)).Keys
  {
    hide BucketSize;
  }

  lemma BelowCard(m: map<nat, Zone>, l: map<nat, Zone>, x: set<nat>)
    requires m.Keys == l.Keys + x && l.Keys !! x
    ensures |m| == |l| + |x|
  {
    assert |m| == |m.Keys| && |l| == |l.Keys|;
  }

  lemma EmptyBucket(zs: map<nat, Zone>, cs: nat)
    requires forall a | a in zs :: zs[a].chunkSize != cs
    ensures FreeIn(zs, cs) == 0
  {
    assert FreeCounts(zs, cs) == map[];
    SumEmpty();
  }
}
