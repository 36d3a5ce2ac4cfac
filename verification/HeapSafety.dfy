/** Heap safety: the user's blocks, the free memory and the allocator's own metadata partition the bytes
    of all pages. */
module HeapSafety {
  import opened Bits
  import opened HeapModel
  import opened HeapSteps
  import opened ListNode
  import opened PagePartition
  import opened Regions

  /** The heap and the page partition between two calls of the public interface. */
  ghost predicate WellFormed(h: Heap, p: Pages)
  {
    && Settled(h) && Tiled(p) && Coalesced(p)
    && p.used == h.used && p.n == |h.addrs|
    && Geometry(h.pageSize, h.addrs, p.borders)
    && PowerOf2(h.pageSize) && SizeClass(DESC, h.pageSize)
  }

  /** The pieces of memory: chunks by their address, page groups by their first page. */
  datatype Piece =
    | UserChunk(chunk: nat)
    | DescriptorChunk(chunk: nat)
    | FreeChunk(chunk: nat)
    | UserPages(first: nat)
    | FreePages(first: nat)
    | DescriptorPages(first: nat)

  ghost predicate IsChunkOf(h: Heap, a: nat, c: nat)
  {
    a in h.zones && c in h.zones[a].chunks
  }

  ghost predicate ChunkPresent(h: Heap, x: Piece)
    requires x.UserChunk? || x.DescriptorChunk? || x.FreeChunk?
  {
    match x
    case UserChunk(c) => c in h.live
    case DescriptorChunk(c) => c in h.zones && c != INITIAL
    case FreeChunk(c) => exists a :: IsChunkOf(h, a, c) && c in h.zones[a].free
  }

  ghost predicate GroupPresent(h: Heap, p: Pages, x: Piece)
    requires x.UserPages? || x.FreePages? || x.DescriptorPages?
  {
    match x
    case UserPages(s) => s in h.blocks
    case FreePages(s) => s in p.free
    case DescriptorPages(s) => s == h.reserved
  }

  ghost predicate IsChunk(x: Piece)
  {
    x.UserChunk? || x.DescriptorChunk? || x.FreeChunk?
  }

  ghost predicate Present(h: Heap, p: Pages, x: Piece)
  {
    if IsChunk(x) then ChunkPresent(h, x) else GroupPresent(h, p, x)
  }

  /** Byte b belongs to the chunk at c: the chunk size is that of the zone of c. */
  ghost predicate InChunk(h: Heap, c: nat, b: nat)
  {
    exists a :: IsChunkOf(h, a, c) && c <= b < c + h.zones[a].chunkSize
  }

  /** Byte b belongs to the page group that starts at page s. */
  ghost predicate InGroup(h: Heap, p: Pages, s: nat, b: nat)
  {
    IsStart(p, s) && s < |h.addrs| && h.addrs[s] <= b < PageAddress(h.addrs[s], Size(p, s), h.pageSize)
  }

  ghost predicate Occupies(h: Heap, p: Pages, x: Piece, b: nat)
  {
    Present(h, p, x) && if IsChunk(x) then InChunk(h, x.chunk, b) else InGroup(h, p, x.first, b)
  }

  ghost predicate InPage(h: Heap, q: nat, b: nat)
  {
    q < |h.addrs| && h.addrs[q] <= b < h.addrs[q] + h.pageSize
  }

  /** The pages of one group follow each other in memory. */
  lemma {:induction false} GroupContiguous(h: Heap, p: Pages, s: nat, j: nat)
    requires Tiled(p) && p.n == |h.addrs| && Geometry(h.pageSize, h.addrs, p.borders)
    requires IsStart(p, s) && j < Size(p, s)
    ensures s + j < |h.addrs| && h.addrs[s + j] == PageAddress(h.addrs[s], j, h.pageSize)
  {
    hide Tiled, Geometry, PageAddress;
    Apart(p, s, s);
    NextPage(h.pageSize, h.addrs, p.borders, s + j);
    if j > 0 {
      GroupContiguous(h, p, s, j - 1);
      Interior(p, s, s + j);
      PageAddressStep(h.addrs[s], j - 1, j - 1, h.pageSize);
    } else {
      PageAddressStep(h.addrs[s], 0, 0, h.pageSize);
    }
  }

  lemma NextPage(pageSize: nat, addrs: seq<nat>, borders: set<nat>, q: nat)
    requires Geometry(pageSize, addrs, borders)
    ensures pageSize > 0 && (0 < q < |addrs| && q !in borders ==> addrs[q] == addrs[q - 1] + pageSize)
  {
  }

  /** A byte of a group lies in one of its pages. */
  lemma PageInGroup(h: Heap, p: Pages, s: nat, b: nat) returns (q: nat)
    requires Tiled(p) && p.n == |h.addrs| && Geometry(h.pageSize, h.addrs, p.borders) && InGroup(h, p, s, b)
    ensures s <= q < End(p, s) && InPage(h, q, b)
  {
    var base := h.addrs[s];
    var j := 0;
    PageAddressStep(base, 0, 0, h.pageSize);
    while b >= PageAddress(base, j + 1, h.pageSize)
      invariant 0 <= j < Size(p, s) && PageAddress(base, j, h.pageSize) <= b
      decreases Size(p, s) - j
    {
      j := j + 1;
    }
    PageAddressStep(base, j, j, h.pageSize);
    GroupContiguous(h, p, s, j);
    q := s + j;
  }

  lemma GroupHasByte(h: Heap, p: Pages, s: nat, q: nat, b: nat)
    requires Tiled(p) && p.n == |h.addrs| && Geometry(h.pageSize, h.addrs, p.borders)
    requires IsStart(p, s) && s <= q < End(p, s) && InPage(h, q, b)
    ensures InGroup(h, p, s, b)
  {
    Apart(p, s, s);
    GroupContiguous(h, p, s, q - s);
    PageAddressStep(h.addrs[s], q - s, q - s, h.pageSize);
    PageAddressMono(h.addrs[s], q - s + 1, Size(p, s), h.pageSize);
    PageAddressMono(h.addrs[s], 0, q - s, h.pageSize);
    PageAddressStep(h.addrs[s], 0, 0, h.pageSize);
  }

  lemma PageAddressMono(base: nat, i: nat, j: nat, m: nat)
    requires i <= j
    ensures PageAddress(base, i, m) <= PageAddress(base, j, m)
  {
    assert (j - i) * m >= 0;
    assert (j - i) * m == j * m - i * m;
  }

  /** Pages do not overlap. */
  lemma OnePageOnly(h: Heap, q: nat, r: nat, b: nat)
    requires PagesApart(h.pageSize, h.addrs) && InPage(h, q, b) && InPage(h, r, b)
    ensures q == r
  {
  }

  lemma OneGroupOnly(p: Pages, s: nat, t: nat, q: nat)
    requires Tiled(p) && IsStart(p, s) && IsStart(p, t) && s <= q < End(p, s) && t <= q < End(p, t)
    ensures s == t
  {
    Apart(p, s, t);
  }

  // ----- no byte has two owners

  lemma ChunkPage(h: Heap, c: nat, b: nat) returns (a: nat)
    requires Inv(h) && InChunk(h, c, b)
    ensures IsChunkOf(h, a, c) && c <= b < c + h.zones[a].chunkSize && InPage(h, h.zones[a].page, b)
  {
    hide Inv;
    a :| IsChunkOf(h, a, c) && c <= b < c + h.zones[a].chunkSize;
    ZoneIsOk(h, a);
    PageOfChunk(h, h.zones[a], c);
  }

  lemma ZoneIsOk(h: Heap, a: nat)
    requires Inv(h) && a in h.zones
    ensures ZoneOk(h, h.zones[a]) && PagesApart(h.pageSize, h.addrs)
    ensures h.zones[a].page in h.used && h.used[h.zones[a].page] == 1
    ensures h.zones[a].page != h.reserved && h.zones[a].page !in h.blocks
  {
  }

  lemma TwoChunks(h: Heap, c: nat, d: nat, b: nat)
    requires Inv(h) && InChunk(h, c, b) && InChunk(h, d, b)
    ensures c == d
  {
    hide Inv, ZoneOk, TilesPage;
    var a := ChunkPage(h, c, b);
    var e := ChunkPage(h, d, b);
    ZoneIsOk(h, a);
    OnePageOnly(h, h.zones[a].page, h.zones[e].page, b);
    ZonePagesDiffer(h, a, e);
    ZoneFacts(h, h.zones[a]);
    ChunksOverlap(h.zones[a].chunks, h.addrs[h.zones[a].page], h.zones[a].chunkSize, h.pageSize, c, d, b);
  }

  lemma ZonePagesDiffer(h: Heap, a: nat, e: nat)
    requires Inv(h) && a in h.zones && e in h.zones && h.zones[a].page == h.zones[e].page
    ensures a == e
  {
  }

  lemma ChunksOverlap(chunks: set<nat>, base: nat, chunkSize: nat, pageSize: nat, c: nat, d: nat, b: nat)
    requires TilesPage(chunks, base, chunkSize, pageSize) && c in chunks && d in chunks
    requires c <= b < c + chunkSize && d <= b < d + chunkSize
    ensures c == d
  {
  }

  /** The three kinds of chunks exclude each other. */
  lemma OneKindOfChunk(h: Heap, x: Piece, y: Piece)
    requires Inv(h) && IsChunk(x) && IsChunk(y) && ChunkPresent(h, x) && ChunkPresent(h, y) && x.chunk == y.chunk
    ensures x == y
  {
    hide Inv;
    ChunkKind(h, x);
    ChunkKind(h, y);
  }

  lemma ChunkKind(h: Heap, x: Piece)
    requires Inv(h) && IsChunk(x) && ChunkPresent(h, x)
    ensures x.UserChunk? <==> x.chunk in h.live
    ensures x.DescriptorChunk? <==> x.chunk in h.zones && x.chunk != INITIAL
    ensures x.FreeChunk? <==> x.chunk !in h.host
  {
    hide Inv;
    match x
    case UserChunk(c) => LiveChunk(h, c);
    case DescriptorChunk(c) => DescriptorInUse(h, c);
    case FreeChunk(c) =>
      var a :| IsChunkOf(h, a, c) && c in h.zones[a].free;
      FreshChunk(h, a, c);
  }

  lemma DescriptorInUse(h: Heap, c: nat)
    requires Inv(h) && c in h.zones && c != INITIAL
    ensures c in h.host && c !in h.live
  {
    DescribedNotLive(h, c);
  }

  lemma OneKindOfGroup(h: Heap, p: Pages, x: Piece, y: Piece)
    requires WellFormed(h, p) && !IsChunk(x) && !IsChunk(y) && x.first == y.first
    requires GroupPresent(h, p, x) && GroupPresent(h, p, y)
    ensures x == y
  {
    assert p.free.Keys !! p.used.Keys;
  }

  /** No two pieces share a byte: live blocks are disjoint from each other, from every free chunk and free
      page, from the zone descriptors and from the page descriptors. */
  lemma NoOverlap(h: Heap, p: Pages, x: Piece, y: Piece, b: nat)
    requires WellFormed(h, p) && Occupies(h, p, x, b) && Occupies(h, p, y, b)
    ensures x == y
  {
    hide Inv, Tiled, Coalesced, FreeIn, Geometry, SizeClass, InChunk, InGroup, ChunkPresent, GroupPresent;
    if IsChunk(x) && IsChunk(y) {
      TwoChunks(h, x.chunk, y.chunk, b);
      OneKindOfChunk(h, x, y);
    } else if !IsChunk(x) && !IsChunk(y) {
      TwoGroups(h, p, x.first, y.first, b);
      OneKindOfGroup(h, p, x, y);
    } else if IsChunk(x) {
      ChunkNotInGroup(h, p, x.chunk, y, b);
    } else {
      ChunkNotInGroup(h, p, y.chunk, x, b);
    }
  }

  lemma TwoGroups(h: Heap, p: Pages, s: nat, t: nat, b: nat)
    requires WellFormed(h, p) && InGroup(h, p, s, b) && InGroup(h, p, t, b)
    ensures s == t
  {
    hide Inv, Tiled, Coalesced, FreeIn, Geometry, SizeClass;
    var q := PageInGroup(h, p, s, b);
    var r := PageInGroup(h, p, t, b);
    SettledApart(h);
    OnePageOnly(h, q, r, b);
    OneGroupOnly(p, s, t, q);
  }

  lemma SettledApart(h: Heap)
    requires Settled(h)
    ensures PagesApart(h.pageSize, h.addrs) && Inv(h)
  {
  }

  /** The page of a zone is a used group of one page that neither the user nor the descriptors hold. */
  lemma ChunkNotInGroup(h: Heap, p: Pages, c: nat, y: Piece, b: nat)
    requires WellFormed(h, p) && InChunk(h, c, b) && !IsChunk(y) && GroupPresent(h, p, y)
    ensures !InGroup(h, p, y.first, b)
  {
    hide Inv, Tiled, Coalesced, FreeIn, Geometry, SizeClass;
    SettledApart(h);
    var a := ChunkPage(h, c, b);
    ZoneIsOk(h, a);
    if InGroup(h, p, y.first, b) {
      var q := PageInGroup(h, p, y.first, b);
      OnePageOnly(h, q, h.zones[a].page, b);
      SinglePage(p, q);
      OneGroupOnly(p, y.first, q, q);
    }
  }

  lemma SinglePage(p: Pages, q: nat)
    requires Tiled(p) && q in p.used && p.used[q] == 1
    ensures IsStart(p, q) && End(p, q) == q + 1 && q !in p.free
  {
  }

  // ----- every byte has an owner

  /** Every byte of every page belongs to exactly one piece. */
  lemma EveryByteOwned(h: Heap, p: Pages, q: nat, b: nat) returns (x: Piece)
    requires WellFormed(h, p) && InPage(h, q, b)
    ensures Occupies(h, p, x, b) && forall y :: Occupies(h, p, y, b) ==> y == x
  {
    hide Inv, Tiled, Coalesced, FreeIn, Geometry, SizeClass, InChunk, InGroup, Occupies;
    SettledApart(h);
    var s := Covered(p, q);
    GroupHasByte(h, p, s, q, b);
    x := OwnerInGroup(h, p, s, q, b);
    forall y | Occupies(h, p, y, b) ensures y == x {
      NoOverlap(h, p, x, y, b);
    }
  }

  lemma OwnerInGroup(h: Heap, p: Pages, s: nat, q: nat, b: nat) returns (x: Piece)
    requires WellFormed(h, p) && InPage(h, q, b) && IsStart(p, s) && s <= q < End(p, s) && InGroup(h, p, s, b)
    ensures Occupies(h, p, x, b)
  {
    hide Inv, Tiled, Coalesced, FreeIn, Geometry, SizeClass, InChunk, InGroup;
    if s in p.free {
      x := FreePages(s);
    } else if s == h.reserved {
      x := DescriptorPages(s);
    } else if s in h.blocks {
      x := UserPages(s);
    } else {
      var a := ZoneOfPage(h, s);
      SettledApart(h);
      ZoneIsOk(h, a);
      SinglePage(p, s);
      x := OwnerInZone(h, a, b);
    }
  }

  lemma ZoneOfPage(h: Heap, s: nat) returns (a: nat)
    requires Settled(h) && s in h.used && s != h.reserved && s !in h.blocks
    ensures a in h.zones && h.zones[a].page == s
  {
    assert IsZonePage(h, s);
    a :| a in h.zones && h.zones[a].page == s;
  }

  lemma OwnerInZone(h: Heap, a: nat, b: nat) returns (x: Piece)
    requires Settled(h) && a in h.zones && InPage(h, h.zones[a].page, b)
    ensures IsChunk(x) && ChunkPresent(h, x) && InChunk(h, x.chunk, b)
  {
    hide Inv, FreeIn, ZoneOk, TilesPage;
    SettledApart(h);
    ZoneIsOk(h, a);
    ZoneFacts(h, h.zones[a]);
    var c := ChunkAt(h.zones[a].chunks, h.addrs[h.zones[a].page], h.zones[a].chunkSize, h.pageSize, b);
    assert IsChunkOf(h, a, c);
    if c in h.zones[a].free {
      x := FreeChunk(c);
    } else {
      InUseKind(h, a, c);
      x := if c in h.live then UserChunk(c) else DescriptorChunk(c);
    }
  }

  lemma ChunkAt(chunks: set<nat>, base: nat, chunkSize: nat, pageSize: nat, b: nat) returns (c: nat)
    requires TilesPage(chunks, base, chunkSize, pageSize) && base <= b < base + pageSize
    ensures c in chunks && c <= b < c + chunkSize
  {
    assert InSomeChunk(chunks, b, chunkSize);
    c :| c in chunks && c <= b < c + chunkSize;
  }

  lemma InUseKind(h: Heap, a: nat, c: nat)
    requires Settled(h) && IsChunkOf(h, a, c) && c !in h.zones[a].free
    ensures c in h.live || (c in h.zones && c != INITIAL)
  {
    hide Inv, FreeIn;
    ChunkInUse(h, a, c);
    assert c !in Pending(h);
    InUsePositive(h, c);
  }

  lemma ChunkInUse(h: Heap, a: nat, c: nat)
    requires Inv(h) && IsChunkOf(h, a, c) && c !in h.zones[a].free
    ensures c in h.host
  {
    hide ZonesOk, DescribedOk, UsedOk, PagesApart;
  }

  // ----- the page descriptors

  /** Byte b belongs to the descriptor of page q: the descriptors follow each other from the address of the
      reserved pages on. */
  ghost predicate InDescriptor(h: Heap, q: nat, b: nat)
  {
    && h.reserved < |h.addrs| && q < |h.addrs|
    && h.addrs[h.reserved] + q * SIZEOF_PAGE <= b < h.addrs[h.reserved] + q * SIZEOF_PAGE + SIZEOF_PAGE
  }

  /** The reserved pages are just enough for the descriptors of all pages. */
  ghost predicate DescriptorsFit(h: Heap)
  {
    h.reserved in h.used && JustCovers(h.used[h.reserved], h.pageSize, |h.addrs|)
  }

  /** Every byte of every descriptor lies in the reserved pages. */
  lemma DescriptorOwned(h: Heap, p: Pages, q: nat, b: nat)
    requires WellFormed(h, p) && DescriptorsFit(h) && InDescriptor(h, q, b)
    ensures Occupies(h, p, DescriptorPages(h.reserved), b)
  {
    hide Settled, Coalesced, Geometry, SizeClass, JustCovers;
    DescriptorEnds(q, |h.addrs|, h.used[h.reserved], h.pageSize);
    ReservedGroup(p, h.reserved);
    ReservedEnd(h.addrs[h.reserved], h.used[h.reserved], h.pageSize);
  }

  lemma ReservedGroup(p: Pages, s: nat)
    requires Tiled(p) && s in p.used
    ensures IsStart(p, s) && Size(p, s) == p.used[s] && s + p.used[s] <= p.n && p.used[s] > 0
  {
    assert IsStart(p, s);
    assert p.free.Keys !! p.used.Keys;
    Apart(p, s, s);
  }

  lemma ReservedEnd(base: nat, k: nat, pageSize: nat)
    ensures PageAddress(base, k, pageSize) == base + k * pageSize
  {
  }

  /** The last reserved page is needed: a byte of some descriptor lies in it. */
  lemma LastReservedNeeded(h: Heap, p: Pages) returns (q: nat, b: nat)
    requires WellFormed(h, p) && DescriptorsFit(h)
    ensures h.used[h.reserved] > 0 && h.reserved + h.used[h.reserved] <= |h.addrs|
    ensures InDescriptor(h, q, b) && InPage(h, h.reserved + h.used[h.reserved] - 1, b)
  {
    hide Settled, Coalesced, SizeClass, JustCovers;
    var d := h.used[h.reserved];
    ReservedGroup(p, h.reserved);
    q := DescriptorInLast(|h.addrs|, d, h.pageSize);
    b := h.addrs[h.reserved] + (d - 1) * h.pageSize;
    GroupContiguous(h, p, h.reserved, d - 1);
    ReservedEnd(h.addrs[h.reserved], d - 1, h.pageSize);
  }
}
