/** The accounting identity of getStats (allocator.cpp) over the statistics of the two layers, in unsigned
    machine arithmetic. */
module Statistics {
  import opened Accounting
  import opened Bits
  import opened HeapModel
  import opened PageAllocation
  import opened PagePartition
  import opened Sums
  import opened ZoneAllocation

  /** The value of Pow2(UINT), see WordSizes. */
  const UINT_RANGE: int := 0x1_0000_0000

  /** All pages of at most eight regions, in bytes. */
  const MAX_BYTES: int := 0x10_0000_0000

  datatype Stats = Stats(
    totalMemorySize: nat, reservedMemorySize: nat, userMemorySize: nat, allocatedMemorySize: nat, freeMemorySize: nat)

  /** The arithmetic of getStats. */
  function Combine(p: PageStats, z: ZoneStats): Stats
  {
    var reserved := Truncate(p.totalMemorySize - p.effectiveMemorySize + Times(p.reservedPagesCount,
        p.pageSize) + z.reservedMemorySize, WORD);
    var user := Truncate(p.totalMemorySize - reserved, WORD);
    var taken := Truncate(p.userMemorySize - p.freeMemorySize - z.usedMemorySize + z.allocatedMemorySize, WORD);
    Stats(p.totalMemorySize, reserved, user, taken, Truncate(user - taken, WORD))
  }

  /** What the statistics are meant to report: the rounded bytes of the user's page groups and chunks ... */
  ghost function AllocatedBytes(h: Heap): nat
  {
    Times(BlockPages(h), h.pageSize) + LiveBytes(h)
  }

  /** ... and the bytes of all free pages and free chunks. */
  ghost function FreeBytes(h: Heap, p: Pages): nat
  {
    Times(Sum(p.free), h.pageSize) + Sum(FreeChunkBytes(h.zones))
  }

  lemma BytesMean(h: Heap, p: Pages)
    ensures AllocatedBytes(h) == Times(BlockPages(h), h.pageSize) + LiveBytes(h)
    ensures FreeBytes(h, p) == Times(Sum(p.free), h.pageSize) + Sum(FreeChunkBytes(h.zones))
  {
  }

  /** Conservation: every page is free, a descriptor page, a zone page or the user's; the zone pages are free
      chunks, user chunks and zone descriptors. */
  lemma BytesAddUp(h: Heap, p: Pages)
    requires Settled(h) && Tiled(p) && p.used == h.used
    ensures h.reserved in h.used && |h.zones| >= 1
    ensures Times(p.n, h.pageSize) == AllocatedBytes(h) + FreeBytes(h, p)
                                      + Times(h.used[h.reserved], h.pageSize) + Times(|h.zones| - 1, DESC)
  {
    hide Settled, Tiled, Sum, Times, BlockPages, LiveBytes, FreeChunkBytes;
    PagesAddUp(p);
    UsedPagesAddUp(h);
    ZoneBytesAddUp(h);
    var d, z, b, f := h.used[h.reserved], |h.zones|, BlockPages(h), Sum(p.free);
    TimesAdd(d, z, h.pageSize);
    TimesAdd(d + z, b, h.pageSize);
    TimesAdd(f, d + z + b, h.pageSize);
  }

  /** What the two layers report. */
  ghost predicate Reported(h: Heap, p: Pages, total: nat, ps: PageStats, zs: ZoneStats)
    requires h.reserved in h.used && |h.zones| >= 1
  {
    && ps.totalMemorySize == Truncate(total, UINT)
    && ps.effectiveMemorySize == Truncate(Times(p.n, h.pageSize), UINT)
    && ps.userMemorySize == Truncate(ps.effectiveMemorySize - Times(h.used[h.reserved], h.pageSize), WORD)
    && ps.freeMemorySize == Truncate(Times(Sum(p.free), h.pageSize), WORD)
    && ps.pageSize == h.pageSize && ps.reservedPagesCount == h.used[h.reserved]
    && zs.usedMemorySize == Times(|h.zones|, h.pageSize)
    && zs.reservedMemorySize == Times(|h.zones| - 1, DESC)
    && zs.freeMemorySize == Truncate(Sum(FreeChunkBytes(h.zones)), UINT)
    && zs.allocatedMemorySize == Truncate(zs.usedMemorySize - zs.reservedMemorySize - zs.freeMemorySize, WORD)
  }

  lemma TruncateNumbers(x: int)
    ensures Truncate(x, UINT) == x % UINT_RANGE && Truncate(x, WORD) == x % 0x1_0000_0000_0000_0000
  {
    WordSizes();
  }

  /** The reported statistics are all right: nothing is lost, and no subtraction wraps. */
  ghost predicate Exact(s: Stats, h: Heap, p: Pages, total: nat)
  {
    && s.totalMemorySize == total
    && s.allocatedMemorySize == AllocatedBytes(h) && s.freeMemorySize == FreeBytes(h, p)
    && s.userMemorySize == s.allocatedMemorySize + s.freeMemorySize
    && s.totalMemorySize == s.reservedMemorySize + s.userMemorySize
  }

  /** The page bytes and the free chunk bytes lose the same multiple of 4 GiB to the 32-bit accumulators. */
  ghost predicate SameLoss(h: Heap, p: Pages)
  {
    Times(p.n, h.pageSize) / UINT_RANGE == Sum(FreeChunkBytes(h.zones)) / UINT_RANGE
  }

  /** Exactly when the reported numbers are right: the total, when all regions together are below 4 GiB; the
      free bytes, when the free chunks are; the allocated bytes, when the pages and the free chunks lose the
      same multiple of 4 GiB to the 32-bit accumulators; everything, when the total is right. */
  lemma StatsExact(h: Heap, p: Pages, total: nat, ps: PageStats, zs: ZoneStats)
    requires Settled(h) && Tiled(p) && p.used == h.used
    requires Times(p.n, h.pageSize) <= MAX_BYTES && Times(p.n, h.pageSize) <= total
    requires h.reserved in h.used && |h.zones| >= 1 && Reported(h, p, total, ps, zs)
    ensures var s, free := Combine(ps, zs), Sum(FreeChunkBytes(h.zones));
      && s.totalMemorySize == ps.totalMemorySize && (s.totalMemorySize == total <==> total < UINT_RANGE)
      && (s.freeMemorySize == FreeBytes(h, p) <==> free < UINT_RANGE)
      && (s.allocatedMemorySize == AllocatedBytes(h) <==> SameLoss(h, p))
      && (Exact(s, h, p, total) <==> total < UINT_RANGE)
  {
    hide Settled, Tiled, Times, Sum, BlockPages, LiveBytes, FreeChunkBytes, AllocatedBytes, FreeBytes, Reported,
         Truncate;
    BytesAddUp(h, p);
    BytesMean(h, p);
    ZoneBytesAddUp(h);
    ReportedNumbers(h, p, total, ps, zs);
    var pages, free := Times(p.n, h.pageSize), Sum(FreeChunkBytes(h.zones));
    Quotients(pages, free);
    WordArithmetic(ps.totalMemorySize, ps.effectiveMemorySize, zs.freeMemorySize,
        free / UINT_RANGE - pages / UINT_RANGE,
                   Times(h.used[h.reserved], h.pageSize), Times(Sum(p.free), h.pageSize), Times(|h.zones|, h.pageSize),
                   Times(|h.zones| - 1, DESC), AllocatedBytes(h));
    Remainder(total);
    if total < UINT_RANGE {
      SmallWord(pages - Times(h.used[h.reserved], h.pageSize) - Times(|h.zones| - 1, DESC));
      SmallWord(total - pages + Times(h.used[h.reserved], h.pageSize) + Times(|h.zones| - 1, DESC));
    }
  }

  lemma ReportedNumbers(h: Heap, p: Pages, total: nat, ps: PageStats, zs: ZoneStats)
    requires h.reserved in h.used && |h.zones| >= 1 && Reported(h, p, total, ps, zs)
    ensures ps.totalMemorySize == total % UINT_RANGE
    ensures ps.effectiveMemorySize == Times(p.n, h.pageSize) % UINT_RANGE
    ensures ps.userMemorySize == Truncate(ps.effectiveMemorySize - Times(h.used[h.reserved], h.pageSize), WORD)
    ensures ps.freeMemorySize == Truncate(Times(Sum(p.free), h.pageSize), WORD)
    ensures ps.pageSize == h.pageSize && ps.reservedPagesCount == h.used[h.reserved]
    ensures zs.usedMemorySize == Times(|h.zones|, h.pageSize)
    ensures zs.reservedMemorySize == Times(|h.zones| - 1, DESC)
    ensures zs.freeMemorySize == Sum(FreeChunkBytes(h.zones)) % UINT_RANGE
    ensures zs.allocatedMemorySize == Truncate(zs.usedMemorySize - zs.reservedMemorySize - zs.freeMemorySize, WORD)
  {
    hide Truncate, Times, Pow2, Sum;
    TruncateNumbers(total);
    TruncateNumbers(Times(p.n, h.pageSize));
    TruncateNumbers(ps.effectiveMemorySize - Times(h.used[h.reserved], h.pageSize));
    TruncateNumbers(Times(Sum(p.free), h.pageSize));
    TruncateNumbers(Sum(FreeChunkBytes(h.zones)));
    TruncateNumbers(zs.usedMemorySize - zs.reservedMemorySize - zs.freeMemorySize);
  }

  // ----- arithmetic modulo the word size

  lemma Nested(x: int, y: int, c: int)
    ensures Truncate(Truncate(x, WORD) - c + Truncate(y, WORD), WORD) == Truncate(x - c + y, WORD)
  {
    hide Truncate;
    TruncateSum(x, Truncate(y, WORD) - c, WORD);
    TruncateSum(y, x - c, WORD);
  }

  lemma NestedMinus(x: int, c: int)
    ensures Truncate(c - Truncate(x, WORD), WORD) == Truncate(c - x, WORD)
  {
    hide Truncate;
    TruncateNumbers(x);
    TruncateNumbers(c - x);
    TruncateNumbers(c - Truncate(x, WORD));
  }

  lemma SmallWord(x: nat)
    requires x <= 2 * MAX_BYTES
    ensures Truncate(x, WORD) == x
  {
    hide Pow2;
    WordSizes();
    TruncateSmall(x, WORD);
  }

  lemma Lost(u: nat, k: int)
    requires u <= MAX_BYTES && -16 <= k <= 16
    ensures Truncate(u + k * UINT_RANGE, WORD) == u <==> k == 0
  {
    hide Truncate, Pow2;
    var x := u + k * UINT_RANGE;
    WordSizes();
    if x >= 0 {
      SmallWord(x);
    } else {
      TruncateIs(x, -1, x + 0x1_0000_0000_0000_0000, WORD);
    }
  }

  lemma Remainder(x: nat)
    ensures x % UINT_RANGE <= x && (x % UINT_RANGE == x <==> x < UINT_RANGE)
  {
  }

  lemma Quotients(pages: nat, free: nat)
    requires free <= pages <= MAX_BYTES
    ensures -16 <= free / UINT_RANGE - pages / UINT_RANGE <= 16
    ensures pages % UINT_RANGE - free % UINT_RANGE
      == pages - free + (free / UINT_RANGE - pages / UINT_RANGE) * UINT_RANGE
    ensures free % UINT_RANGE <= free && (free % UINT_RANGE == free <==> free < UINT_RANGE)
    ensures pages < UINT_RANGE ==> pages % UINT_RANGE == pages && pages / UINT_RANGE == free / UINT_RANGE == 0
  {
  }

  lemma HeldAndFree(x: int, y: nat)
    requires y <= MAX_BYTES
    ensures Truncate(Truncate(x, WORD) - Truncate(x - y, WORD), WORD) == y
  {
    hide Truncate;
    NestedMinus(x - y, Truncate(x, WORD));
    Nested(x, 0, x - y);
    TruncateNumbers(0);
    SmallWord(y);
  }

  /** The subtractions of getStats modulo the word size: t, e and g are the reported total, page bytes and free
      chunk bytes, and k the number of multiples of 4 GiB by which e and g are off. */
  lemma WordArithmetic(t: int, e: int, g: nat, k: int, d: nat, f: nat, z: nat, r: nat, taken: nat)
    requires e - d - f - r - g == taken + k * UINT_RANGE && taken <= MAX_BYTES && -16 <= k <= 16
    requires f + g <= MAX_BYTES
    ensures var user, held := Truncate(t - Truncate(t - e + d + r, WORD), WORD),
      Truncate(Truncate(e - d, WORD) - Truncate(f, WORD) - z + Truncate(z - r - g, WORD), WORD);
      && user == Truncate(e - d - r, WORD)
      && Truncate(user - held, WORD) == f + g
      && (held == taken <==> k == 0)
  {
    hide Truncate;
    SmallWord(f);
    Nested(e - d, z - r - g, f + z);
    NestedMinus(t - e + d + r, t);
    HeldAndFree(e - d - r, f + g);
    Lost(taken, k);
    var held := Truncate(Truncate(e - d, WORD) - Truncate(f, WORD) - z + Truncate(z - r - g, WORD), WORD);
    assert held == Truncate(Truncate(e - d, WORD) - (f + z) + Truncate(z - r - g, WORD), WORD);
    assert held == Truncate(e - d - (f + z) + (z - r - g), WORD);
    assert held == Truncate(e - d - r - (f + g), WORD);
    assert held == Truncate(taken + k * UINT_RANGE, WORD);
  }
}
