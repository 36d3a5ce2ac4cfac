/** Physical memory regions and their page-aligned part (RegionInfo.cpp), and the geometry of the
    pages that the descriptor array spreads over all regions. */
module Regions {
  import opened Bits
  import opened Sums

  datatype Option<T> = None | Some(value: T)

  datatype Region = Region(address: nat, size: nat)

  datatype RegionInfo = RegionInfo(
    start: nat, end: nat, alignedStart: nat, alignedEnd: nat, pageCount: nat,
    size: nat, alignedSize: nat, firstPage: nat, lastPage: nat)

  const CLEARED := RegionInfo(0, 0, 0, 0, 0, 0, 0, 0, 0)

  /** The region does not wrap around the address space. */
  predicate Representable(r: Region)
  {
    r.address + r.size < Pow2(WORD)
  }

  /** `addr & ~(pageSize - 1)`. */
  function PageFloor(addr: nat, pageSize: nat): (r: nat)
    requires 1 <= pageSize <= Pow2(WORD)
  {
    BitAnd(addr, BitNot(pageSize - 1, WORD))
  }

  lemma PageFloorMeaning(addr: nat, pageSize: nat)
    requires PowerOf2(pageSize) && pageSize < Pow2(WORD) && addr < Pow2(WORD)
    ensures pageSize > 0 && PageFloor(addr, pageSize) == addr - addr % pageSize
  {
    hide Pow2, BitAnd;
    var k: nat :| pageSize == Pow2(k);
    if k > WORD { Pow2Mono(WORD, k); }
    MaskRoundsDown(addr, k, WORD);
  }

  /** Multiples of the page size are at least a page apart. */
  lemma MultiplesApart(a: nat, b: nat, m: nat)
    requires m > 0 && a % m == 0 && b % m == 0 && a < b
    ensures a + m <= b
  {
    var x, y := a / m, b / m;
    assert a == x * m && b == y * m;
    MulLess(x, y, m);
  }

  lemma FloorIsMultiple(a: nat, m: nat)
    requires m > 0
    ensures (a - a % m) % m == 0 && (a - a % m + m) % m == 0
  {
    var q := a / m;
    assert a - a % m == q * m;
    MulDivMod(q, m, 0);
    MulDivMod(q + 1, m, 0);
    assert (q + 1) * m == q * m + m;
  }

  lemma FloorInPage(addr: nat, pageSize: nat, base: nat)
    requires PowerOf2(pageSize) && pageSize < Pow2(WORD) && addr < Pow2(WORD)
    requires pageSize > 0 && base % pageSize == 0 && base <= addr < base + pageSize
    ensures PageFloor(addr, pageSize) == base
  {
    hide Pow2, PageFloor;
    PageFloorMeaning(addr, pageSize);
    var q := base / pageSize;
    assert base == q * pageSize;
    MulDivMod(q, pageSize, addr - base);
  }

  function AlignedStart(r: Region, pageSize: nat): Option<nat>
    requires 1 <= pageSize <= Pow2(WORD)
  {
    var floor := PageFloor(r.address, pageSize);
    var start := if floor < r.address then floor + pageSize else floor;
    if start > r.address + r.size then None else Some(start)
  }

  function AlignedEnd(r: Region, pageSize: nat): Option<nat>
    requires 1 <= pageSize <= Pow2(WORD)
  {
    var end := PageFloor(r.address + r.size, pageSize);
    if end < r.address then None else Some(end)
  }

  /** s is the start and e the end of the largest page-aligned subrange of the region. */
  ghost predicate LargestAlignedPart(r: Region, pageSize: nat, s: nat, e: nat)
    requires pageSize > 0
  {
    && r.address <= s <= e <= r.address + r.size
    && s % pageSize == 0 && e % pageSize == 0
    && forall x: nat {:trigger x % pageSize} | x % pageSize == 0 ::
         (x >= r.address ==> x >= s) && (x <= r.address + r.size ==> x <= e)
  }

  /** a rounded down to a multiple of m. */
  ghost function Floor(a: nat, m: nat): nat
    requires m > 0
  {
    a - a % m
  }

  /** Multiples of m on either side of a. */
  lemma FloorFacts(a: nat, m: nat)
    requires m > 0
    ensures Floor(a, m) <= a < Floor(a, m) + m
    ensures Floor(a, m) % m == 0 && (Floor(a, m) + m) % m == 0
    ensures forall x: nat {:trigger x % m} | x % m == 0 ::
      (x <= a ==> x <= Floor(a, m)) && (x > Floor(a, m) ==> x >= Floor(a, m) + m)
  {
    var f := Floor(a, m);
    FloorIsMultiple(a, m);
    forall x: nat | x % m == 0 ensures (x <= a ==> x <= f) && (x > f ==> x >= f + m) {
      if f < x { MultiplesApart(f, x, m); }
    }
  }

  /** For a region of at least one page both asserts of initRegionInfo hold, and the aligned part is
      the largest page-aligned subrange, with fewer than two pages lost. */
  lemma TrimmingIsTight(r: Region, pageSize: nat)
    requires PowerOf2(pageSize) && r.size >= pageSize && Representable(r)
    ensures 1 <= pageSize <= Pow2(WORD)
    ensures AlignedStart(r, pageSize).Some? && AlignedEnd(r, pageSize).Some?
    ensures LargestAlignedPart(r, pageSize, AlignedStart(r, pageSize).value, AlignedEnd(r, pageSize).value)
    ensures AlignedEnd(r, pageSize).value - AlignedStart(r, pageSize).value > r.size - 2 * pageSize
  {
    hide Floor, Pow2, PageFloor, PowerOf2;
    var a, b := r.address, r.address + r.size;
    PageFloorIsFloor(a, pageSize);
    PageFloorIsFloor(b, pageSize);
    FloorFacts(a, pageSize);
    FloorFacts(b, pageSize);
  }

  lemma PageFloorIsFloor(addr: nat, pageSize: nat)
    requires PowerOf2(pageSize) && pageSize < Pow2(WORD) && addr < Pow2(WORD)
    ensures pageSize > 0 && PageFloor(addr, pageSize) == Floor(addr, pageSize)
  {
    PageFloorMeaning(addr, pageSize);
  }

  lemma AlignedPages(s: nat, e: nat, pageSize: nat)
    requires pageSize > 0 && s <= e && s % pageSize == 0 && e % pageSize == 0
    ensures s + ((e - s) / pageSize) * pageSize == e
  {
    var x, y := s / pageSize, e / pageSize;
    assert s == x * pageSize && e == y * pageSize;
    if y < x { MulAtLeast(x - y, pageSize); }
    MulDivMod(y - x, pageSize, 0);
    assert (y - x) * pageSize == e - s;
  }

  /** What a RegionInfo says once initRegionInfo accepted the region. */
  ghost predicate Trimmed(info: RegionInfo, r: Region, pageSize: nat)
  {
    && pageSize > 0
    && info.start == r.address && info.end == r.address + r.size && info.size == r.size
    && LargestAlignedPart(r, pageSize, info.alignedStart, info.alignedEnd)
    && info.pageCount > 0
    && info.alignedSize == info.pageCount * pageSize
    && info.alignedStart + info.alignedSize == info.alignedEnd
    && info.size - info.alignedSize < 2 * pageSize
  }

  lemma NextMultiple(x: nat, m: nat)
    requires m > 0 && x % m == 0
    ensures (x + m) % m == 0
  {
    var q := x / m;
    assert x == q * m;
    assert (q + 1) * m == q * m + m;
    MulDivMod(q + 1, m, 0);
  }

  /** Some page-aligned page fits into the region. */
  ghost predicate HoldsPage(r: Region, pageSize: nat)
    requires pageSize > 0
  {
    exists x: nat :: x % pageSize == 0 && x >= r.address && x + pageSize <= r.address + r.size
  }

  lemma HoldsPageMeaning(r: Region, pageSize: nat, s: nat, e: nat)
    requires pageSize > 0 && LargestAlignedPart(r, pageSize, s, e)
    ensures HoldsPage(r, pageSize) <==> (e - s) / pageSize > 0
    ensures s + ((e - s) / pageSize) * pageSize == e
  {
    AlignedPages(s, e, pageSize);
    if HoldsPage(r, pageSize) {
      var x: nat :| x % pageSize == 0 && x >= r.address && x + pageSize <= r.address + r.size;
      NextMultiple(x, pageSize);
      assert s < e;
    }
    if (e - s) / pageSize > 0 {
      MulAtLeast((e - s) / pageSize, pageSize);
    }
  }

  lemma SmallRegionHoldsNoPage(r: Region, pageSize: nat)
    requires 0 < pageSize && r.size < pageSize
    ensures !HoldsPage(r, pageSize)
  {
  }

  lemma AlignedBounds(r: Region, pageSize: nat) returns (s: nat, e: nat)
    requires PowerOf2(pageSize) && r.size >= pageSize && Representable(r)
    ensures 1 <= pageSize <= Pow2(WORD)
    ensures AlignedStart(r, pageSize) == Some(s) && AlignedEnd(r, pageSize) == Some(e)
    ensures s <= e && LargestAlignedPart(r, pageSize, s, e)
    ensures HoldsPage(r, pageSize) <==> (e - s) / pageSize > 0
    ensures s + ((e - s) / pageSize) * pageSize == e
    ensures r.size - (e - s) < 2 * pageSize
  {
    TrimmingIsTight(r, pageSize);
    s, e := AlignedStart(r, pageSize).value, AlignedEnd(r, pageSize).value;
    HoldsPageMeaning(r, pageSize, s, e);
  }

  /** The largest aligned part of a region is unique, so Trimmed determines the region info. */
  lemma TrimmedUnique(a: RegionInfo, b: RegionInfo, r: Region, pageSize: nat)
    requires Trimmed(a, r, pageSize) && Trimmed(b, r, pageSize)
    ensures a.(firstPage := 0, lastPage := 0) == b.(firstPage := 0, lastPage := 0)
  {
    assert a.alignedStart == b.alignedStart && a.alignedEnd == b.alignedEnd;
    SameProduct(a.pageCount, b.pageCount, pageSize);
  }

  lemma SameProduct(x: nat, y: nat, m: nat)
    requires m > 0 && x * m == y * m
    ensures x == y
  {
    MulDivMod(x, m, 0);
    MulDivMod(y, m, 0);
  }

  /** initRegionInfo: fails exactly when the region holds no aligned page. */
  method InitRegionInfo(region: Region, pageSize: nat) returns (ok: bool, info: RegionInfo)
    requires PowerOf2(pageSize) && Representable(region)
    ensures ok ==> Trimmed(info, region, pageSize) && info.firstPage == 0 && info.lastPage == 0
    ensures pageSize > 0 && (ok <==> HoldsPage(region, pageSize))
  {
    hide Pow2, AlignedStart, AlignedEnd, LargestAlignedPart, HoldsPage, Representable;
    info := CLEARED;
    PowerPositive(pageSize);
    if region.size < pageSize {
      SmallRegionHoldsNoPage(region, pageSize);
      return false, info;
    }
    ghost var s, e := AlignedBounds(region, pageSize);
    info := info.(start := region.address, end := region.address + region.size);
    var start := AlignedStart(region, pageSize);
    assert start.Some?;
    info := info.(alignedStart := start.value);
    var end := AlignedEnd(region, pageSize);
    assert end.Some?;
    info := info.(alignedEnd := end.value);
    info := info.(pageCount := (info.alignedEnd - info.alignedStart) / pageSize);
    if info.pageCount == 0 {
      return false, info;
    }
    info := info.(size := region.size, alignedSize := info.pageCount * pageSize);
    return true, info;
  }

  // ----- regions and the descriptor array

  const PAGE_LIMIT: nat := 0x20_0000

  /** The pages of a region are described by consecutive descriptors, region after region. */
  ghost predicate Chained(rs: seq<RegionInfo>, n: nat)
  {
    && (|rs| > 0 ==> rs[0].firstPage == 0)
    && (|rs| == 0 ==> n == 0)
    && (forall i | 0 <= i < |rs| :: rs[i].pageCount > 0 && rs[i].lastPage == rs[i].firstPage + rs[i].pageCount - 1)
    && (forall i | 0 <= i < |rs| - 1 :: rs[i + 1].firstPage == rs[i].firstPage + rs[i].pageCount)
    && (|rs| > 0 ==> n == rs[|rs| - 1].firstPage + rs[|rs| - 1].pageCount)
  }

  /** The pages of different regions do not overlap. */
  ghost predicate HalfOpenDisjoint(rs: seq<RegionInfo>)
  {
    forall i, j | 0 <= i < |rs| && 0 <= j < |rs| && i != j ::
      rs[i].alignedEnd <= rs[j].alignedStart || rs[j].alignedEnd <= rs[i].alignedStart
  }

  /** No region ends where a region listed later begins. */
  ghost predicate NoEarlierNeighbour(rs: seq<RegionInfo>)
  {
    forall i, j | 0 <= i < j < |rs| :: rs[i].alignedEnd != rs[j].alignedStart
  }

  /** The regions are disjoint, and listed in an order that getRegion can tell apart (LookupCompleteIff). */
  ghost predicate Separated(rs: seq<RegionInfo>)
  {
    HalfOpenDisjoint(rs) && NoEarlierNeighbour(rs)
  }

  ghost predicate InRegion(r: RegionInfo, p: nat)
  {
    r.firstPage <= p <= r.lastPage
  }

  /** The address of the k-th page from start on. */
  function PageAddress(start: nat, k: nat, pageSize: nat): nat
  {
    start + k * pageSize
  }

  /** The addresses of count pages from start on. */
  ghost function AddressRun(start: nat, count: nat, pageSize: nat): (a: seq<nat>)
    ensures |a| == count && forall k | 0 <= k < count :: a[k] == PageAddress(start, k, pageSize)
  {
    seq(count, k requires 0 <= k => PageAddress(start, k, pageSize))
  }

  lemma PageAddressStep(start: nat, k: nat, count: nat, pageSize: nat)
    requires pageSize > 0
    ensures PageAddress(start, 0, pageSize) == start
    ensures PageAddress(start, k + 1, pageSize) == PageAddress(start, k, pageSize) + pageSize
    ensures k <= count && PageAddress(start, k, pageSize) == PageAddress(start, count, pageSize) ==> k == count
  {
    assert (k + 1) * pageSize == k * pageSize + pageSize;
    if k * pageSize == count * pageSize { SameProduct(k, count, pageSize); }
  }

  /** The address of a page of region r. */
  function AddressIn(r: RegionInfo, p: nat, pageSize: nat): nat
    requires p >= r.firstPage
  {
    PageAddress(r.alignedStart, p - r.firstPage, pageSize)
  }

  ghost predicate Addressed(rs: seq<RegionInfo>, pageSize: nat, addrs: seq<nat>)
  {
    forall i, p: nat {:trigger InRegion(rs[i], p)} | 0 <= i < |rs| && InRegion(rs[i], p) ::
      p < |addrs| && addrs[p] == AddressIn(rs[i], p, pageSize)
  }

  ghost predicate Aligned(rs: seq<RegionInfo>, pageSize: nat)
  {
    && pageSize > 0
    && forall i | 0 <= i < |rs| ::
         && 0 < rs[i].alignedStart && rs[i].alignedStart % pageSize == 0
         && 0 < rs[i].pageCount < PAGE_LIMIT
         && rs[i].alignedSize == rs[i].pageCount * pageSize
         && rs[i].alignedEnd == rs[i].alignedStart + rs[i].alignedSize < Pow2(WORD)
         && rs[i].alignedSize <= rs[i].size
  }

  ghost function Borders(rs: seq<RegionInfo>): set<nat>
  {
    set i | 0 <= i < |rs| :: rs[i].firstPage
  }

  /** The region of a page. */
  lemma {:induction false} RegionOfPage(rs: seq<RegionInfo>, n: nat, p: nat) returns (i: nat)
    requires Chained(rs, n) && p < n
    ensures i < |rs| && InRegion(rs[i], p)
    ensures rs[i].lastPage < n
  {
    var l := |rs| - 1;
    if p >= rs[l].firstPage {
      i := l;
    } else {
      i := RegionOfPage(rs[..l], rs[l].firstPage, p);
    }
  }

  lemma {:induction false} RegionsOrdered(rs: seq<RegionInfo>, n: nat, i: nat, j: nat)
    requires Chained(rs, n) && i < j < |rs|
    ensures rs[i].lastPage < rs[j].firstPage
    decreases j
  {
    if i + 1 < j {
      RegionsOrdered(rs, n, i, j - 1);
    }
    assert rs[j - 1 + 1].firstPage == rs[j - 1].firstPage + rs[j - 1].pageCount;
  }

  lemma RegionUnique(rs: seq<RegionInfo>, n: nat, i: nat, j: nat, p: nat)
    requires Chained(rs, n) && i < |rs| && j < |rs| && InRegion(rs[i], p) && InRegion(rs[j], p)
    ensures i == j
  {
    if i < j { RegionsOrdered(rs, n, i, j); }
    if j < i { RegionsOrdered(rs, n, j, i); }
  }

  /** Neighbouring pages lie in different regions exactly at a border. */
  lemma BorderBetween(rs: seq<RegionInfo>, n: nat, i: nat, j: nat, p: nat)
    requires Chained(rs, n) && i < |rs| && j < |rs| && InRegion(rs[i], p) && InRegion(rs[j], p + 1)
    ensures i != j <==> p + 1 in Borders(rs)
  {
    if p + 1 in Borders(rs) {
      var k :| 0 <= k < |rs| && rs[k].firstPage == p + 1;
      RegionUnique(rs, n, j, k, p + 1);
    }
    if i != j {
      if rs[j].firstPage <= p {
        RegionUnique(rs, n, i, j, p);
      }
      assert rs[j].firstPage == p + 1;
    }
  }

  /** Page ranges are disjoint, aligned and non-null. */
  ghost predicate PagesApart(pageSize: nat, addrs: seq<nat>)
  {
    && pageSize > 0
    && (forall p | 0 <= p < |addrs| :: 0 < addrs[p] && addrs[p] % pageSize == 0 && addrs[p] + pageSize <= Pow2(WORD))
    && (forall p, q | 0 <= p < |addrs| && 0 <= q < |addrs| && p != q ::
          addrs[p] + pageSize <= addrs[q] || addrs[q] + pageSize <= addrs[p])
  }

  /** The page geometry: pages are apart, and contiguous inside a region. */
  ghost predicate Geometry(pageSize: nat, addrs: seq<nat>, borders: set<nat>)
  {
    && PagesApart(pageSize, addrs)
    && (forall p: nat {:trigger p in borders} | 0 < p < |addrs| && p !in borders :: addrs[p] == addrs[p - 1] + pageSize)
  }

  lemma AddressFacts(r: RegionInfo, p: nat, pageSize: nat)
    requires pageSize > 0 && r.alignedStart % pageSize == 0 && InRegion(r, p)
    requires r.alignedEnd == r.alignedStart + r.pageCount * pageSize && r.lastPage == r.firstPage + r.pageCount - 1
    ensures AddressIn(r, p, pageSize) % pageSize == 0
    ensures r.alignedStart <= AddressIn(r, p, pageSize) && AddressIn(r, p, pageSize) + pageSize <= r.alignedEnd
  {
    var k := p - r.firstPage;
    var q := r.alignedStart / pageSize;
    assert r.alignedStart == q * pageSize;
    assert (q + k) * pageSize == q * pageSize + k * pageSize;
    MulDivMod(q + k, pageSize, 0);
    assert (r.pageCount - 1 - k) * pageSize >= 0;
    assert (r.pageCount - 1 - k) * pageSize == r.pageCount * pageSize - pageSize - k * pageSize;
  }

  lemma AddressStep(r: RegionInfo, p: nat, q: nat, pageSize: nat)
    requires pageSize > 0 && r.firstPage <= p < q
    ensures AddressIn(r, p, pageSize) + pageSize <= AddressIn(r, q, pageSize)
    ensures AddressIn(r, p + 1, pageSize) == AddressIn(r, p, pageSize) + pageSize
  {
    var a, b := p - r.firstPage, q - r.firstPage;
    assert (b - a) * pageSize == b * pageSize - a * pageSize;
    MulAtLeast(b - a, pageSize);
    assert (a + 1) * pageSize == a * pageSize + pageSize;
  }

  lemma GeometryHolds(rs: seq<RegionInfo>, pageSize: nat, addrs: seq<nat>)
    requires Chained(rs, |addrs|) && Aligned(rs, pageSize) && Separated(rs) && Addressed(rs, pageSize, addrs)
    ensures Geometry(pageSize, addrs, Borders(rs))
  {
    forall p | 0 <= p < |addrs|
      ensures 0 < addrs[p] && addrs[p] % pageSize == 0 && addrs[p] + pageSize <= Pow2(WORD)
    {
      var i := RegionOfPage(rs, |addrs|, p);
      AddressFacts(rs[i], p, pageSize);
    }
    forall p, q | 0 <= p < |addrs| && 0 <= q < |addrs| && p != q
      ensures addrs[p] + pageSize <= addrs[q] || addrs[q] + pageSize <= addrs[p]
    {
      var i := RegionOfPage(rs, |addrs|, p);
      var j := RegionOfPage(rs, |addrs|, q);
      AddressFacts(rs[i], p, pageSize);
      AddressFacts(rs[j], q, pageSize);
      if i == j {
        if p < q { AddressStep(rs[i], p, q, pageSize); } else { AddressStep(rs[i], q, p, pageSize); }
      }
    }
    forall p: nat | 0 < p < |addrs| && p !in Borders(rs) ensures addrs[p] == addrs[p - 1] + pageSize {
      var i := RegionOfPage(rs, |addrs|, p - 1);
      var j := RegionOfPage(rs, |addrs|, p);
      BorderBetween(rs, |addrs|, i, j, p - 1);
      AddressStep(rs[i], p - 1, p, pageSize);
    }
  }

  // ----- looking up the region of an address

  /** The test of getRegion: its upper bound is inclusive. */
  predicate Contains(r: RegionInfo, addr: nat)
  {
    r.alignedStart <= addr <= r.alignedEnd
  }

  /** The first region from index i on that contains the address. */
  ghost function Lookup(rs: seq<RegionInfo>, addr: nat, i: nat): Option<nat>
    requires i <= |rs|
    decreases |rs| - i
  {
    if i == |rs| then None
    else if Contains(rs[i], addr) then Some(i)
    else Lookup(rs, addr, i + 1)
  }

  lemma {:induction false} LookupIsFirst(rs: seq<RegionInfo>, addr: nat, i: nat, k: nat)
    requires i <= k < |rs| && Contains(rs[k], addr)
    ensures Lookup(rs, addr, i) == Some(k) <==> forall j | i <= j < k :: !Contains(rs[j], addr)
    decreases k - i
  {
    if i < k {
      LookupIsFirst(rs, addr, i + 1, k);
    }
  }

  lemma {:induction false} LookupHit(rs: seq<RegionInfo>, addr: nat, i: nat)
    requires i <= |rs| && Lookup(rs, addr, i).Some?
    ensures Lookup(rs, addr, i).value < |rs| && Contains(rs[Lookup(rs, addr, i).value], addr)
    decreases |rs| - i
  {
    if !Contains(rs[i], addr) {
      LookupHit(rs, addr, i + 1);
    }
  }

  /** getRegion's inclusive bound matters: disjoint regions are told apart for all their pages exactly when
      no region ends where a later-listed one begins. */
  lemma LookupCompleteIff(rs: seq<RegionInfo>, pageSize: nat, addrs: seq<nat>)
    requires Chained(rs, |addrs|) && Aligned(rs, pageSize) && HalfOpenDisjoint(rs) && Addressed(rs, pageSize, addrs)
    ensures NoEarlierNeighbour(rs) <==>
      forall i, p: nat {:trigger InRegion(rs[i], p)} | 0 <= i < |rs| && InRegion(rs[i], p) ::
        p < |addrs| && Lookup(rs, addrs[p], 0) == Some(i)
  {
    if NoEarlierNeighbour(rs) {
      forall i, p: nat | 0 <= i < |rs| && InRegion(rs[i], p)
        ensures p < |addrs| && Lookup(rs, addrs[p], 0) == Some(i)
      {
        AddressFacts(rs[i], p, pageSize);
        forall j | 0 <= j < i ensures !Contains(rs[j], addrs[p]) {
          MulAtLeast(rs[j].pageCount, pageSize);
        }
        LookupIsFirst(rs, addrs[p], 0, i);
      }
    } else {
      var i, j :| 0 <= i < j < |rs| && rs[i].alignedEnd == rs[j].alignedStart;
      var p := rs[j].firstPage;
      assert InRegion(rs[j], p) && addrs[p] == rs[j].alignedStart;
      AddressFacts(rs[j], p, pageSize);
      MulAtLeast(rs[i].pageCount, pageSize);
      LookupIsFirst(rs, addrs[p], 0, j);
      assert Contains(rs[i], addrs[p]);
    }
  }

  /** With separated regions getRegion finds the region of every page. */
  lemma LookupPage(rs: seq<RegionInfo>, pageSize: nat, addrs: seq<nat>, p: nat) returns (i: nat)
    requires Chained(rs, |addrs|) && Aligned(rs, pageSize) && Separated(rs) && Addressed(rs, pageSize, addrs)
    requires p < |addrs|
    ensures i < |rs| && InRegion(rs[i], p) && Lookup(rs, addrs[p], 0) == Some(i)
  {
    i := RegionOfPage(rs, |addrs|, p);
    LookupCompleteIff(rs, pageSize, addrs);
  }

  // ----- the region table that init builds

  /** sizeof(Page): 32 bytes on a 64-bit target and 16 on a 32-bit one. */
  type PageBytes = n: nat | 8 <= n <= 32 witness 32

  /** The target's sizeof(Page); it has no fixed value, so the theorems hold for each. */
  const SIZEOF_PAGE: PageBytes

  /** The bytes of the descriptor array of n pages. */
  function ArrayBytes(n: nat): nat
  {
    n * SIZEOF_PAGE
  }

  /** The caller's array ends with a zeroed entry. */
  ghost predicate Terminated(regions: seq<Region>)
  {
    exists z :: 0 <= z < |regions| && regions[z].size == 0
  }

  ghost function EntryCount(regions: seq<Region>): (c: nat)
    requires Terminated(regions)
    ensures c < |regions| && regions[c].size == 0 && forall i | 0 <= i < c :: regions[i].size != 0
  {
    if regions[0].size == 0 then 0
    else
      assert Terminated(regions[1..]) by {
        var z :| 0 <= z < |regions| && regions[z].size == 0;
        assert regions[1..][z - 1].size == 0;
      }
      var c := EntryCount(regions[1..]);
      assert forall i | 0 <= i < c + 1 :: regions[i].size != 0 by {
        forall i | 0 <= i < c + 1 ensures regions[i].size != 0 {
          if i > 0 { assert regions[i] == regions[1..][i - 1]; }
        }
      }
      c + 1
  }

  ghost function Trim(r: Region, pageSize: nat): (info: RegionInfo)
    requires PowerOf2(pageSize) && Representable(r) && pageSize > 0 && HoldsPage(r, pageSize)
    ensures Trimmed(info, r, pageSize) && info.firstPage == info.lastPage == 0
  {
    TrimExists(r, pageSize);
    var info :| Trimmed(info, r, pageSize) && info.firstPage == info.lastPage == 0;
    info
  }

  lemma TrimExists(r: Region, pageSize: nat)
    requires PowerOf2(pageSize) && Representable(r) && pageSize > 0 && HoldsPage(r, pageSize)
    ensures exists info :: Trimmed(info, r, pageSize) && info.firstPage == info.lastPage == 0
  {
    hide PowerOf2, Representable, AlignedStart, AlignedEnd;
    assert r.size >= pageSize;
    var s, e := AlignedBounds(r, pageSize);
    var c := (e - s) / pageSize;
    var info := RegionInfo(r.address, r.address + r.size, s, e, c, r.size, c * pageSize, 0, 0);
    assert Trimmed(info, r, pageSize);
  }

  /** The table entries of the first k regions: the regions without an aligned page are skipped. */
  ghost function Table(regions: seq<Region>, pageSize: nat, k: nat): seq<RegionInfo>
    requires PowerOf2(pageSize) && k <= |regions| && forall i | 0 <= i < k :: Representable(regions[i])
  {
    if k == 0 then []
    else
      PowerPositive(pageSize);
      Table(regions, pageSize, k - 1)
        + if HoldsPage(regions[k - 1], pageSize) then [Trim(regions[k - 1], pageSize)] else []
  }

  lemma PowerPositive(p: nat)
    requires PowerOf2(p)
    ensures p > 0
  {
  }

  ghost function TotalPages(rs: seq<RegionInfo>): nat
  {
    if rs == [] then 0 else TotalPages(rs[..|rs| - 1]) + rs[|rs| - 1].pageCount
  }

  lemma {:induction false} TotalPagesPrefix(rs: seq<RegionInfo>, i: nat)
    requires i < |rs|
    ensures TotalPages(rs[..i]) + rs[i].pageCount == TotalPages(rs[..i + 1]) <= TotalPages(rs)
    decreases |rs|
  {
    assert rs[..i + 1][..i] == rs[..i];
    if i + 1 == |rs| {
      assert rs[..i + 1] == rs;
    } else {
      var t := rs[..|rs| - 1];
      TotalPagesPrefix(t, i);
      assert t[..i] == rs[..i] && t[..i + 1] == rs[..i + 1];
    }
  }

  /** The chained regions hold all pages. */
  lemma {:induction false} ChainedTotal(rs: seq<RegionInfo>, n: nat)
    requires Chained(rs, n)
    ensures n == TotalPages(rs)
    decreases |rs|
  {
    if |rs| > 0 {
      ChainedTotal(rs[..|rs| - 1], rs[|rs| - 1].firstPage);
    }
  }

  lemma {:induction false} SameTotal(rs: seq<RegionInfo>, table: seq<RegionInfo>)
    requires SameTable(rs, table)
    ensures TotalPages(rs) == TotalPages(table)
    decreases |rs|
  {
    if |rs| > 0 {
      SameTotal(rs[..|rs| - 1], table[..|table| - 1]);
    }
  }

  lemma {:induction false} TableLength(regions: seq<Region>, pageSize: nat, k: nat)
    requires PowerOf2(pageSize) && k <= |regions| && forall i | 0 <= i < k :: Representable(regions[i])
    ensures |Table(regions, pageSize, k)| <= k
  {
    if k > 0 {
      TableLength(regions, pageSize, k - 1);
    }
  }

  /** The bytes of all regions. */
  ghost function TotalSize(rs: seq<RegionInfo>): nat
  {
    if rs == [] then 0 else TotalSize(rs[..|rs| - 1]) + rs[|rs| - 1].size
  }

  /** The bytes of the aligned parts of all regions. */
  ghost function TotalAligned(rs: seq<RegionInfo>): nat
  {
    if rs == [] then 0 else TotalAligned(rs[..|rs| - 1]) + rs[|rs| - 1].alignedSize
  }

  lemma TotalsPrefix(rs: seq<RegionInfo>, i: nat)
    requires i < |rs|
    ensures TotalSize(rs[..i + 1]) == TotalSize(rs[..i]) + rs[i].size
    ensures TotalAligned(rs[..i + 1]) == TotalAligned(rs[..i]) + rs[i].alignedSize
  {
    assert rs[..i + 1][..i] == rs[..i];
  }

  /** The aligned parts are exactly the pages; a table of few regions has few pages. */
  lemma {:induction false} TotalsBound(rs: seq<RegionInfo>, n: nat, pageSize: nat)
    requires Chained(rs, n) && Aligned(rs, pageSize)
    ensures TotalAligned(rs) == Times(n, pageSize) <= TotalSize(rs)
    ensures n <= Times(|rs|, PAGE_LIMIT)
    decreases |rs|
  {
    hide Times;
    TimesAdd(0, 0, pageSize);
    TimesAdd(0, 0, PAGE_LIMIT);
    if |rs| > 0 {
      var l := |rs| - 1;
      TotalsBound(rs[..l], rs[l].firstPage, pageSize);
      TimesAdd(rs[l].firstPage, rs[l].pageCount, pageSize);
      TimesAdd(l, 1, PAGE_LIMIT);
      assert rs[l].alignedSize == Times(rs[l].pageCount, pageSize) by { TimesMeaning(rs[l].pageCount, pageSize); }
    }
  }

  /** The region at idx can hold the descriptors of n pages. */
  predicate Fits(r: RegionInfo, n: nat)
  {
    r.alignedSize >= ArrayBytes(n)
  }

  /** What init needs of its region table: separated, non-null, below the tag limit, and a first region
      that can hold the descriptor array. */
  ghost predicate SoundTable(rs: seq<RegionInfo>)
  {
    && Separated(rs)
    && (forall i | 0 <= i < |rs| :: rs[i].alignedStart > 0 && rs[i].pageCount < PAGE_LIMIT)
    && (|rs| > 0 ==> Fits(rs[0], TotalPages(rs)))
  }

  lemma {:induction false} TableAligned(regions: seq<Region>, pageSize: nat, k: nat)
    requires PowerOf2(pageSize) && k <= |regions| && forall i | 0 <= i < k :: Representable(regions[i])
    ensures pageSize > 0
    ensures forall i | 0 <= i < |Table(regions, pageSize, k)| ::
      var r := Table(regions, pageSize, k)[i];
      && r.alignedStart % pageSize == 0 && r.pageCount > 0 && r.alignedSize == r.pageCount * pageSize
      && r.alignedEnd == r.alignedStart + r.alignedSize < Pow2(WORD) && r.alignedSize <= r.size
      && r.firstPage == r.lastPage == 0
  {
    PowerPositive(pageSize);
    if k > 0 {
      TableAligned(regions, pageSize, k - 1);
    }
  }

  /** k pages are exactly the pages needed for the given number of bytes. */
  ghost predicate Covers(k: nat, pageSize: nat, bytes: nat)
  {
    1 <= k && PageAddress(0, k - 1, pageSize) < bytes <= PageAddress(0, k, pageSize)
  }

  /** k pages hold the descriptors of n pages, and one page less does not. */
  ghost predicate JustCovers(k: nat, pageSize: nat, n: nat)
  {
    k >= 1 && (k - 1) * pageSize < n * SIZEOF_PAGE <= k * pageSize
  }

  lemma CoversExactly(k: nat, pageSize: nat, n: nat)
    requires Covers(k, pageSize, ArrayBytes(n))
    ensures JustCovers(k, pageSize, n)
  {
  }

  /** The descriptors below the n-th end where the n-th begins. */
  lemma DescriptorEnds(q: nat, n: nat, k: nat, pageSize: nat)
    requires q < n && JustCovers(k, pageSize, n)
    ensures q * SIZEOF_PAGE + SIZEOF_PAGE <= k * pageSize
  {
    assert (n - 1 - q) * SIZEOF_PAGE >= 0;
    assert (n - 1 - q) * SIZEOF_PAGE == n * SIZEOF_PAGE - q * SIZEOF_PAGE - SIZEOF_PAGE;
  }

  /** Some descriptor reaches into the last of the k pages. */
  lemma DescriptorInLast(n: nat, k: nat, pageSize: nat) returns (q: nat)
    requires JustCovers(k, pageSize, n) && pageSize > 0
    ensures q < n && q * SIZEOF_PAGE <= (k - 1) * pageSize < q * SIZEOF_PAGE + SIZEOF_PAGE
  {
    var x := (k - 1) * pageSize;
    assert x >= 0;
    q := x / SIZEOF_PAGE;
    assert x == q * SIZEOF_PAGE + x % SIZEOF_PAGE;
    if q >= n { MulMono(n, q, SIZEOF_PAGE); }
  }

  lemma MulMono(a: nat, b: nat, m: nat)
    requires a <= b
    ensures a * m <= b * m
  {
    assert (b - a) * m >= 0;
    assert (b - a) * m == b * m - a * m;
  }

  /** The descriptors leave a page to use as soon as there are two pages. */
  lemma DescriptorsLeaveRoom(d: nat, n: nat, pageSize: nat)
    requires JustCovers(d, pageSize, n) && pageSize >= 4 * SIZEOF_PAGE
    ensures d < n <==> n >= 2
  {
    if d >= n >= 2 {
      MulMono(n - 1, d - 1, pageSize);
      MulMono(4 * SIZEOF_PAGE, pageSize, n - 1);
      assert n * SIZEOF_PAGE == (n - 1) * SIZEOF_PAGE + SIZEOF_PAGE;
      MulMono(1, n - 1, SIZEOF_PAGE);
      assert false;
    }
  }

  lemma CoversEnd(k: nat, count: nat, start: nat, pageSize: nat, bytes: nat)
    requires 1 <= k <= count && PageAddress(start, k - 1, pageSize) < start + bytes
    requires PageAddress(start, k, pageSize) >= start + bytes
      || (k == count && PageAddress(0, count, pageSize) >= bytes)
    ensures Covers(k, pageSize, bytes)
  {
  }

  /** rs is the table, apart from the descriptor indices that init fills in. */
  ghost predicate SameTable(rs: seq<RegionInfo>, table: seq<RegionInfo>)
  {
    |rs| == |table| && forall j | 0 <= j < |rs| ::
        rs[j].(firstPage := 0, lastPage := 0) == table[j].(firstPage := 0, lastPage := 0)
  }

  lemma SameTableFacts(rs: seq<RegionInfo>, table: seq<RegionInfo>, pageSize: nat)
    requires SameTable(rs, table)
    ensures Separated(table) ==> Separated(rs)
    ensures Aligned(table, pageSize) ==> Aligned(rs, pageSize)
  {
    assert forall j | 0 <= j < |rs| ::
        rs[j].alignedStart == table[j].alignedStart && rs[j].alignedEnd == table[j].alignedEnd;
    if Aligned(table, pageSize) {
      forall j | 0 <= j < |rs|
        ensures rs[j].pageCount == table[j].pageCount && rs[j].alignedSize == table[j].alignedSize
          && rs[j].size == table[j].size
      {
      }
    }
  }

  /** Giving the next region the descriptors behind all previous ones extends the chain. */
  lemma ChainExtended(rs: seq<RegionInfo>, n: nat, i: nat, r: RegionInfo, pageSize: nat, addrs: seq<nat>)
    requires i < |rs| && Chained(rs[..i], n) && |addrs| == n && Addressed(rs[..i], pageSize, addrs)
    requires r.pageCount > 0 && r.firstPage == n && r.lastPage == n + r.pageCount - 1
    ensures var t := rs[i := r][..i + 1];
      && Chained(t, n + r.pageCount)
      && Addressed(t, pageSize, addrs + AddressRun(r.alignedStart, r.pageCount, pageSize))
      && Borders(t) == Borders(rs[..i]) + {n}
  {
    var t := rs[i := r][..i + 1];
    var s := rs[..i];
    assert forall j | 0 <= j < i :: t[j] == s[j];
    assert t[i] == r;
    if i > 0 { assert t[i - 1] == s[i - 1]; }
    ChainBounds(s, n);
    var addrs' := addrs + AddressRun(r.alignedStart, r.pageCount, pageSize);
    forall j, p: nat | 0 <= j < |t| && InRegion(t[j], p)
      ensures p < |addrs'| && addrs'[p] == AddressIn(t[j], p, pageSize)
    {
      if j < i {
        assert InRegion(s[j], p);
      }
    }
    BordersExtended(s, t, n);
  }

  lemma BordersExtended(s: seq<RegionInfo>, t: seq<RegionInfo>, n: nat)
    requires |t| == |s| + 1 && t[..|s|] == s && t[|s|].firstPage == n
    ensures Borders(t) == Borders(s) + {n}
  {
    forall b ensures b in Borders(t) <==> b in Borders(s) + {n} {
      if b in Borders(s) {
        var j :| 0 <= j < |s| && s[j].firstPage == b;
        assert t[j].firstPage == b;
      }
      if b in Borders(t) {
        var j :| 0 <= j < |t| && t[j].firstPage == b;
        if j < |s| { assert s[j].firstPage == b; }
      }
      if b == n { assert t[|s|].firstPage == b; }
    }
  }

  lemma {:induction false} ChainBounds(rs: seq<RegionInfo>, n: nat)
    requires Chained(rs, n)
    ensures forall j | 0 <= j < |rs| :: rs[j].lastPage < n
  {
    forall j | 0 <= j < |rs| ensures rs[j].lastPage < n {
      if j < |rs| - 1 { RegionsOrdered(rs, n, j, |rs| - 1); }
    }
  }

  /** Some region of the caller's array holds a page. */
  ghost predicate AnyPage(regions: seq<Region>, pageSize: nat, k: nat)
    requires pageSize > 0 && k <= |regions|
  {
    exists i :: 0 <= i < k && HoldsPage(regions[i], pageSize)
  }

  lemma {:induction false} TableNonEmpty(regions: seq<Region>, pageSize: nat, k: nat)
    requires PowerOf2(pageSize) && k <= |regions| && forall i | 0 <= i < k :: Representable(regions[i])
    ensures pageSize > 0
    ensures AnyPage(regions, pageSize, k) <==> |Table(regions, pageSize, k)| > 0
    ensures |Table(regions, pageSize, k)| > 0 <==> TotalPages(Table(regions, pageSize, k)) > 0
  {
    hide HoldsPage, Trimmed, PowerOf2, Representable;
    PowerPositive(pageSize);
    if k > 0 {
      TableNonEmpty(regions, pageSize, k - 1);
      var t, s := Table(regions, pageSize, k), Table(regions, pageSize, k - 1);
      if HoldsPage(regions[k - 1], pageSize) {
        TableAligned(regions, pageSize, k);
        assert t[|t| - 1].pageCount > 0;
        assert t[..|t| - 1] == s;
        assert AnyPage(regions, pageSize, k);
      } else {
        assert t == s;
        if AnyPage(regions, pageSize, k) {
          var i :| 0 <= i < k && HoldsPage(regions[i], pageSize);
          assert i < k - 1;
        }
      }
    }
  }

  // ----- init with a single range

  /** The two entries that init(start, end, pageSize) passes on. */
  function Single(start: nat, end: nat): seq<Region>
    requires start <= end
  {
    [Region(start, end - start), Region(0, 0)]
  }

  /** Two page-aligned pages fit between start and end. */
  ghost predicate TwoPages(start: nat, end: nat, pageSize: nat)
    requires pageSize > 0
  {
    exists x: nat :: x % pageSize == 0 && start <= x && x + 2 * pageSize <= end
  }

  lemma SingleEntries(start: nat, end: nat)
    requires start <= end < Pow2(WORD)
    ensures Terminated(Single(start, end)) && EntryCount(Single(start, end)) == if start == end then 0 else 1
    ensures Representable(Single(start, end)[0])
  {
    hide Pow2;
    var rs := Single(start, end);
    assert rs[1].size == 0;
  }

  /** The table describes just the range from start to end. */
  ghost predicate OneRegion(rs: seq<RegionInfo>, start: nat, end: nat)
  {
    |rs| == 1 && rs[0].start == start <= end == rs[0].end && rs[0].size == end - start
  }

  lemma OneRegionKept(rs: seq<RegionInfo>, table: seq<RegionInfo>, start: nat, end: nat)
    requires SameTable(rs, table) && OneRegion(table, start, end)
    ensures OneRegion(rs, start, end) && TotalSize(rs) == end - start
  {
    assert rs[0].(firstPage := 0, lastPage := 0) == table[0].(firstPage := 0, lastPage := 0);
    assert rs[..0] == [];
  }

  /** A single range always meets the demands of init on its table: its own descriptors fit into it. */
  lemma SingleTable(start: nat, end: nat, pageSize: nat)
    requires PowerOf2(pageSize) && pageSize >= SIZEOF_PAGE && 0 < start <= end < Pow2(WORD)
    requires end - start < PageAddress(0, PAGE_LIMIT, pageSize)
    ensures Terminated(Single(start, end))
      && forall i | 0 <= i < EntryCount(Single(start, end)) :: Representable(Single(start, end)[i])
    ensures var t := Table(Single(start, end), pageSize, EntryCount(Single(start, end)));
      && SoundTable(t) && (TotalPages(t) >= 2 <==> TwoPages(start, end, pageSize))
      && (TotalPages(t) >= 2 ==> OneRegion(t, start, end))
  {
    hide Pow2, PowerOf2, Representable, LargestAlignedPart, EntryCount, Terminated, HoldsPage;
    SingleEntries(start, end);
    var rs := Single(start, end);
    var t := Table(rs, pageSize, EntryCount(rs));
    assert Table(rs, pageSize, 0) == [];
    if start < end && HoldsPage(rs[0], pageSize) {
      var info := Trim(rs[0], pageSize);
      assert t == [info];
      assert TotalPages([]) == 0 && [info][..0] == [];
      SinglePages(info, rs[0], pageSize);
    } else {
      assert start < end ==> t == Table(rs, pageSize, 0) + [];
      if TwoPages(start, end, pageSize) { TwoPagesHold(rs[0], pageSize); }
    }
  }

  lemma TwoPagesHold(r: Region, pageSize: nat)
    requires pageSize > 0 && TwoPages(r.address, r.address + r.size, pageSize)
    ensures HoldsPage(r, pageSize) && r.size > 0
  {
    var x: nat :| x % pageSize == 0 && r.address <= x && x + 2 * pageSize <= r.address + r.size;
  }

  lemma SinglePages(info: RegionInfo, r: Region, pageSize: nat)
    requires Trimmed(info, r, pageSize) && pageSize >= SIZEOF_PAGE && r.size < PageAddress(0, PAGE_LIMIT, pageSize)
    ensures info.pageCount < PAGE_LIMIT && Fits(info, info.pageCount) && info.alignedStart >= r.address
    ensures info.pageCount >= 2 <==> TwoPages(r.address, r.address + r.size, pageSize)
  {
    hide TwoPages;
    MulLess(info.pageCount, PAGE_LIMIT, pageSize);
    assert info.pageCount * (pageSize - SIZEOF_PAGE) >= 0;
    TwoPagesFit(r, pageSize, info.alignedStart, info.alignedEnd);
    TwoPagesCount(info.pageCount, pageSize);
  }

  lemma TwoPagesFit(r: Region, pageSize: nat, s: nat, e: nat)
    requires pageSize > 0 && LargestAlignedPart(r, pageSize, s, e)
    ensures TwoPages(r.address, r.address + r.size, pageSize) <==> s + 2 * pageSize <= e
  {
    assert s % pageSize == 0 && r.address <= s;
    if TwoPages(r.address, r.address + r.size, pageSize) {
      var x: nat :| x % pageSize == 0 && r.address <= x && x + 2 * pageSize <= r.address + r.size;
      NextMultiple(x, pageSize);
      NextMultiple(x + pageSize, pageSize);
      assert x + pageSize + pageSize <= e;
    }
  }

  lemma TwoPagesCount(k: nat, m: nat)
    requires m > 0
    ensures k >= 2 <==> 2 * m <= k * m
  {
    if k >= 2 {
      assert k * m == (k - 2) * m + 2 * m;
      assert (k - 2) * m >= 0;
    } else if k == 1 {
      assert k * m == m;
    } else {
      assert k * m == 0;
    }
  }

  lemma TableSound(regions: seq<Region>, pageSize: nat, k: nat)
    requires PowerOf2(pageSize) && k <= |regions| && forall i | 0 <= i < k :: Representable(regions[i])
    requires SoundTable(Table(regions, pageSize, k))
    ensures Aligned(Table(regions, pageSize, k), pageSize) && Separated(Table(regions, pageSize, k))
  {
    hide Table;
    TableAligned(regions, pageSize, k);
  }

  /** The region chooseDescRegion has selected after k turns of its loop. */
  function Chosen(rs: seq<RegionInfo>, pagesCount: nat, k: nat): (idx: nat)
    requires k <= |rs| && |rs| > 0
    ensures idx < |rs|
  {
    if k == 0 then 0
    else
      var idx := Chosen(rs, pagesCount, k - 1);
      if Fits(rs[k - 1], pagesCount) && rs[k - 1].alignedSize < rs[idx].alignedSize then k - 1 else idx
  }

  /** chooseDescRegion: a smallest region that can hold the descriptor array. The search starts from
      region 0 without testing it, so the chosen region fits exactly when region 0 does. */
  method ChooseDescRegion(rs: seq<RegionInfo>, pagesCount: nat) returns (selectedIdx: nat)
    requires |rs| > 0
    ensures selectedIdx < |rs| && selectedIdx == Chosen(rs, pagesCount, |rs|)
    ensures Fits(rs[selectedIdx], pagesCount) <==> Fits(rs[0], pagesCount)
    ensures Fits(rs[0], pagesCount) ==> forall j | 0 <= j < |rs| && Fits(rs[j], pagesCount) ::
      && rs[selectedIdx].alignedSize <= rs[j].alignedSize
      && (j < selectedIdx ==> rs[selectedIdx].alignedSize < rs[j].alignedSize)
    ensures !Fits(rs[0], pagesCount) ==> selectedIdx == 0
  {
    hide ArrayBytes;
    var descAreaSize := ArrayBytes(pagesCount);
    selectedIdx := 0;
    var i := 0;
    while i < |rs|
      invariant 0 <= i <= |rs| && selectedIdx < |rs| && selectedIdx == Chosen(rs, pagesCount, i)
      invariant selectedIdx == 0 || (selectedIdx < i && Fits(rs[selectedIdx], pagesCount) && Fits(rs[0], pagesCount))
      invariant rs[selectedIdx].alignedSize <= rs[0].alignedSize
      invariant Fits(rs[0], pagesCount) ==> forall j | 0 <= j < i && Fits(rs[j], pagesCount) ::
        && rs[selectedIdx].alignedSize <= rs[j].alignedSize
        && (j < selectedIdx ==> rs[selectedIdx].alignedSize < rs[j].alignedSize)
    {
      if rs[i].alignedSize >= descAreaSize {
        if rs[i].alignedSize < rs[selectedIdx].alignedSize {
          selectedIdx := i;
        }
      }
      i := i + 1;
    }
  }

  // ----- inputs on which init goes wrong

  /** A region that is aligned already is described as it is. */
  lemma AlignedRegion(r: Region, pageSize: nat, count: nat)
    requires PowerOf2(pageSize) && pageSize > 0 && Representable(r) && count > 0
    requires r.address % pageSize == 0 && r.size == count * pageSize
    ensures HoldsPage(r, pageSize)
    ensures Trim(r, pageSize)
         == RegionInfo(r.address, r.address + r.size, r.address, r.address + r.size, count, r.size, r.size, 0, 0)
  {
    hide PowerOf2, Representable;
    MulAtLeast(count, pageSize);
    EndIsAligned(r, pageSize, count);
    assert HoldsPage(r, pageSize) by { assert r.address % pageSize == 0; }
    var info := Trim(r, pageSize);
    assert info.alignedStart == r.address && info.alignedEnd == r.address + r.size;
    SameProduct(info.pageCount, count, pageSize);
  }

  lemma EndIsAligned(r: Region, pageSize: nat, count: nat)
    requires pageSize > 0 && r.address % pageSize == 0 && r.size == count * pageSize
    ensures (r.address + r.size) % pageSize == 0
  {
    var q := r.address / pageSize;
    assert r.address == q * pageSize;
    assert (q + count) * pageSize == q * pageSize + count * pageSize;
    MulDivMod(q + count, pageSize, 0);
  }

  lemma Power128()
    ensures PowerOf2(128) && 0x1_0000 < Pow2(WORD)
  {
    assert Pow2(7) == 128 by { assert Pow2(3) == 8; Pow2Add(3, 4); assert Pow2(4) == 16; }
    Pow2Add(8, 8);
    assert Pow2(8) == 256;
    Pow2Mono(17, WORD);
  }

  /** The region table of two aligned regions. */
  lemma TwoRegionTable(a: nat, m: nat, b: nat, n: nat) returns (t: seq<RegionInfo>)
    requires a % 128 == 0 && b % 128 == 0 && m > 0 && n > 0 && a + m * 128 <= 0x1_0000 && b + n * 128 <= 0x1_0000
    ensures PowerOf2(128) && Representable(Region(a, m * 128)) && Representable(Region(b, n * 128))
    ensures t == Table([Region(a, m * 128), Region(b, n * 128), Region(0, 0)], 128, 2)
    ensures t == [
      RegionInfo(a, a + m * 128, a, a + m * 128, m, m * 128, m * 128, 0, 0),
      RegionInfo(b, b + n * 128, b, b + n * 128, n, n * 128, n * 128, 0, 0)]
    ensures TotalPages(t) == m + n
  {
    hide PowerOf2, Pow2, HoldsPage, Trimmed;
    Power128();
    var r0, r1 := Region(a, m * 128), Region(b, n * 128);
    var rs := [r0, r1, Region(0, 0)];
    AlignedRegion(r0, 128, m);
    AlignedRegion(r1, 128, n);
    assert Table(rs, 128, 0) == [];
    assert Table(rs, 128, 1) == [Trim(r0, 128)];
    t := Table(rs, 128, 2);
    assert t == [Trim(r0, 128), Trim(r1, 128)];
    assert t[..1] == [t[0]] && [t[0]][..0] == [];
    assert TotalPages([t[0]]) == m;
  }

  /** For the regions 4096..4352 and 8192..13312 and pages of 128 bytes, region 0 (2 pages) is too small for the
      descriptors of the 42 pages and region 1 is not, yet chooseDescRegion selects region 0. */
  lemma ChooseDescRegionMisses() returns (t: seq<RegionInfo>)
    ensures PowerOf2(128) && Representable(Region(4096, 256)) && Representable(Region(8192, 5120))
    ensures t == Table([Region(4096, 256), Region(8192, 5120), Region(0, 0)], 128, 2)
    ensures |t| == 2 && TotalPages(t) == 42 && Separated(t)
    ensures Chosen(t, 42, 2) == 0 && !Fits(t[0], 42) && Fits(t[1], 42)
  {
    t := TwoRegionTable(4096, 2, 8192, 40);
    assert Chosen(t, 42, 0) == 0 && Chosen(t, 42, 1) == 0;
  }

  /** Page p is found: the loop of getPage over the region that getRegion returns meets its address. */
  ghost predicate Found(rs: seq<RegionInfo>, addrs: seq<nat>, p: nat)
    requires p < |addrs|
  {
    var k := Lookup(rs, addrs[p], 0);
    k.Some? && k.value < |rs| && exists q: nat :: q < |addrs| && InRegion(rs[k.value], q) && addrs[q] == addrs[p]
  }

  /** Disjoint regions have pages with different addresses. */
  lemma AddressesDiffer(rs: seq<RegionInfo>, pageSize: nat, addrs: seq<nat>, i: nat, p: nat, j: nat, q: nat)
    requires Chained(rs, |addrs|) && Aligned(rs, pageSize) && HalfOpenDisjoint(rs) && Addressed(rs, pageSize, addrs)
    requires i < |rs| && j < |rs| && i != j && InRegion(rs[i], p) && InRegion(rs[j], q)
    ensures p < |addrs| && q < |addrs| && addrs[p] != addrs[q]
  {
    AddressFacts(rs[i], p, pageSize);
    AddressFacts(rs[j], q, pageSize);
  }

  /** getPage finds every page exactly when no region ends where a later-listed one begins; otherwise it
      returns nullptr for the first page of the later one. */
  lemma GetPageCompleteIff(rs: seq<RegionInfo>, pageSize: nat, addrs: seq<nat>)
    requires Chained(rs, |addrs|) && Aligned(rs, pageSize) && HalfOpenDisjoint(rs) && Addressed(rs, pageSize, addrs)
    ensures NoEarlierNeighbour(rs) <==> forall p: nat | p < |addrs| :: Found(rs, addrs, p)
    ensures forall i, j | 0 <= i < j < |rs| && rs[i].alignedEnd == rs[j].alignedStart ::
      rs[j].firstPage < |addrs| && !Found(rs, addrs, rs[j].firstPage)
  {
    hide Chained, Aligned, HalfOpenDisjoint, Addressed, Lookup, NoEarlierNeighbour;
    forall i, j | 0 <= i < j < |rs| && rs[i].alignedEnd == rs[j].alignedStart
      ensures rs[j].firstPage < |addrs| && !Found(rs, addrs, rs[j].firstPage)
    {
      NotFound(rs, pageSize, addrs, i, j);
    }
    if NoEarlierNeighbour(rs) {
      LookupCompleteIff(rs, pageSize, addrs);
      forall p: nat | p < |addrs| ensures Found(rs, addrs, p) {
        var i := RegionOfPage(rs, |addrs|, p);
      }
    } else {
      var i, j := Neighbours(rs);
    }
  }

  lemma Neighbours(rs: seq<RegionInfo>) returns (i: nat, j: nat)
    requires !NoEarlierNeighbour(rs)
    ensures i < j < |rs| && rs[i].alignedEnd == rs[j].alignedStart
  {
    i, j :| i < j < |rs| && rs[i].alignedEnd == rs[j].alignedStart;
  }

  lemma NotFound(rs: seq<RegionInfo>, pageSize: nat, addrs: seq<nat>, i: nat, j: nat)
    requires Chained(rs, |addrs|) && Aligned(rs, pageSize) && HalfOpenDisjoint(rs) && Addressed(rs, pageSize, addrs)
    requires i < j < |rs| && rs[i].alignedEnd == rs[j].alignedStart
    ensures rs[j].firstPage < |addrs| && !Found(rs, addrs, rs[j].firstPage)
  {
    var p := rs[j].firstPage;
    assert InRegion(rs[j], p) && addrs[p] == rs[j].alignedStart;
    var k := Lookup(rs, addrs[p], 0);
    LookupBefore(rs, addrs[p], 0, i);
    forall q: nat | q < |addrs| && InRegion(rs[k.value], q) ensures addrs[q] != addrs[p] {
      AddressesDiffer(rs, pageSize, addrs, k.value, q, j, p);
    }
  }

  lemma {:induction false} LookupBefore(rs: seq<RegionInfo>, addr: nat, i: nat, k: nat)
    requires i <= k < |rs| && Contains(rs[k], addr)
    ensures Lookup(rs, addr, i).Some? && Lookup(rs, addr, i).value <= k
    decreases k - i
  {
    if i < k && !Contains(rs[i], addr) {
      LookupBefore(rs, addr, i + 1, k);
    }
  }

  /** For the regions 4096..5120 and 5120..6144 and pages of 128 bytes, the address 5120 of page 8, the first one
      of region 1, is looked up in region 0, and getPage does not find it. */
  lemma AdjacentRegionsMissed() returns (t: seq<RegionInfo>, rs: seq<RegionInfo>, addrs: seq<nat>)
    ensures PowerOf2(128) && Representable(Region(4096, 1024)) && Representable(Region(5120, 1024))
    ensures t == Table([Region(4096, 1024), Region(5120, 1024), Region(0, 0)], 128, 2)
    ensures SameTable(rs, t) && |addrs| == 16 && Chained(rs, 16) && Aligned(rs, 128) && HalfOpenDisjoint(rs)
    ensures Addressed(rs, 128, addrs) && |rs| == 2 && InRegion(rs[1], 8) && addrs[8] == 5120
    ensures Lookup(rs, 5120, 0) == Some(0) && !Found(rs, addrs, 8)
  {
    hide Chained, Aligned, HalfOpenDisjoint, Addressed, Lookup, Table, Found, PowerOf2, Pow2, Representable;
    t := TwoRegionTable(4096, 8, 5120, 8);
    rs := [t[0].(firstPage := 0, lastPage := 7), t[1].(firstPage := 8, lastPage := 15)];
    addrs := AddressRun(4096, 16, 128);
    AdjacentFacts(rs, addrs);
    NotFound(rs, 128, addrs, 0, 1);
  }

  lemma AdjacentFacts(rs: seq<RegionInfo>, addrs: seq<nat>)
    requires rs == [
      RegionInfo(4096, 5120, 4096, 5120, 8, 1024, 1024, 0, 7), RegionInfo(5120, 6144, 5120, 6144, 8, 1024, 1024, 8, 15)]
    requires addrs == AddressRun(4096, 16, 128)
    ensures Chained(rs, 16) && Aligned(rs, 128) && HalfOpenDisjoint(rs) && Addressed(rs, 128, addrs)
    ensures Lookup(rs, 5120, 0) == Some(0) && addrs[8] == 5120
  {
    hide Pow2;
    Power128();
  }
}
