/** The page allocator (PageAllocator.cpp): descriptors, boundary tags and size-class lists refine the
    abstract partition of PagePartition. */
module PageAllocation {
  import opened Bits
  import opened Groups
  import opened ListNode
  import opened PagePartition
  import opened Regions
  import opened Sums

  // ----- how the three concrete representations reflect the partition

  /** Boundary tags, used bits and addresses agree with the partition; the used bits of the group at
      `pending` are not looked at. */
  ghost predicate Reflects(pg: seq<Page>, p: Pages, addrs: seq<nat>, pending: Ptr)
  {
    && p.n == |addrs| <= |pg|
    && (forall q | 0 <= q < p.n :: pg[q].addr == addrs[q])
    && (forall s: nat {:trigger IsStart(p, s)} | IsStart(p, s) :: TagAt(pg, s, Size(p, s)))
    && (forall s: nat {:trigger IsStart(p, s)} | IsStart(p, s)
       && At(s) != pending :: UsedAt(pg, s, Size(p, s), s in p.used))
  }

  /** Bucket i lists the free groups of size class i; all other descriptors are unlinked. */
  ghost predicate Indexed(p: Pages, heads: seq<Ptr>, lists: seq<seq<nat>>, nodes: map<nat, Node>)
  {
    && |heads| == GROUP_LISTS && |lists| == GROUP_LISTS
    && (forall i | 0 <= i < GROUP_LISTS :: Linked(nodes, lists[i]) && heads[i] == Head(lists[i]))
    && (forall i: nat, s: nat | i < GROUP_LISTS :: s in lists[i] <==> s in p.free && GroupIdx(p.free[s]) == i)
    && (forall s: nat | s in nodes && s !in p.free :: nodes[s] == UNLINKED)
  }

  /** Every group is smaller than the 21-bit tag limit. */
  ghost predicate Tagged(p: Pages)
  {
    forall s: nat {:trigger IsStart(p, s)} | IsStart(p, s) :: Size(p, s) < PAGE_LIMIT
  }

  /** pg' is pg with the used bits of the pages lo..hi set to b. */
  ghost predicate Marked(pg: seq<Page>, pg': seq<Page>, lo: nat, hi: nat, b: bool)
  {
    && |pg'| == |pg|
    && forall q | 0 <= q < |pg| :: pg'[q] == if lo <= q < hi then pg[q].(used := b) else pg[q]
  }

  /** Marking the pages of the group at s makes it the only group whose used bit is b. */
  lemma MarkReflects(pg: seq<Page>, pg': seq<Page>, p: Pages, p': Pages, addrs: seq<nat>, s: nat, b: bool)
    requires Tiled(p) && IsStart(p, s)
    requires Reflects(pg, p, addrs, Null) || Reflects(pg, p, addrs, At(s))
    requires p'.n == p.n
    requires forall t: nat :: IsStart(p', t) <==> IsStart(p, t)
    requires forall t: nat | IsStart(p, t) :: Size(p', t) == Size(p, t)
    requires forall t: nat | IsStart(p, t) :: t in p'.used <==> if t == s then b else t in p.used
    requires Marked(pg, pg', s, End(p, s), b)
    ensures Reflects(pg', p', addrs, Null)
  {
    forall t: nat | IsStart(p', t)
      ensures TagAt(pg', t, Size(p', t)) && UsedAt(pg', t, Size(p', t), t in p'.used)
    {
      assert IsStart(p, t);
      Apart(p, s, t);
      MarkedGroup(pg, pg', s, End(p, s), b, t, Size(p, t), t in p.used);
    }
  }

  lemma MarkedGroup(pg: seq<Page>, pg': seq<Page>, lo: nat, hi: nat, b: bool, t: nat, k: nat, u: bool)
    requires Marked(pg, pg', lo, hi, b) && TagAt(pg, t, k)
    requires (t == lo && t + k == hi) || t + k <= lo || hi <= t
    ensures TagAt(pg', t, k)
    ensures t == lo && t + k == hi ==> UsedAt(pg', t, k, b)
    ensures UsedAt(pg, t, k, u) && (t + k <= lo || hi <= t) ==> UsedAt(pg', t, k, u)
  {
  }

  /** The complete concrete state of the page allocator agrees with the partition p. */
  ghost predicate Consistent(p: Pages, pg: seq<Page>, addrs: seq<nat>, heads: seq<Ptr>, lists: seq<seq<nat>>,
                             nodes: map<nat, Node>, freeCount: nat, pending: Ptr)
  {
    && Tiled(p)
    && Tagged(p)
    && Reflects(pg, p, addrs, pending)
    && Indexed(p, heads, lists, nodes)
    && (forall q: nat :: q in nodes <==> q < p.n)
    && freeCount == Sum(p.free)
  }

  /** What the concrete state says about one group. */
  lemma GroupFacts(p: Pages, pg: seq<Page>, addrs: seq<nat>, heads: seq<Ptr>, lists: seq<seq<nat>>,
                   nodes: map<nat, Node>, freeCount: nat, pending: Ptr, s: nat)
    requires Consistent(p, pg, addrs, heads, lists, nodes, freeCount, pending) && IsStart(p, s)
    ensures s < End(p, s) <= p.n <= |pg| && End(p, s) == s + Size(p, s)
    ensures TagAt(pg, s, Size(p, s)) && pg[s].groupSize == Size(p, s) < PAGE_LIMIT
    ensures |heads| == |lists| == GROUP_LISTS && GroupIdx(Size(p, s)) < GROUP_LISTS
    ensures var l := lists[GroupIdx(Size(p, s))];
      && Linked(nodes, l) && heads[GroupIdx(Size(p, s))] == Head(l) && s in nodes
      && (if s in p.free then s in l else s !in l && nodes[s] == UNLINKED)
    ensures s in p.used ==> s !in p.free && Size(p, s) == p.used[s]
    ensures s in p.free ==> Size(p, s) == p.free[s] <= freeCount
  {
    GroupIdxInTable(Size(p, s));
    assert s < End(p, s);
    if s in p.free { SumAtLeast(p.free, s); }
  }

  /** The state after addGroup. */
  lemma AddedConsistent(p: Pages, pg: seq<Page>, pg': seq<Page>, addrs: seq<nat>, heads: seq<Ptr>, lists: seq<seq<nat>>,
                        nodes: map<nat, Node>, nodes': map<nat, Node>, freeCount: nat, s: nat)
    requires Consistent(p, pg, addrs, heads, lists, nodes, freeCount, At(s)) && s in p.used
    requires GroupIdx(p.used[s]) < GROUP_LISTS && |lists| == |heads| == GROUP_LISTS
    requires var l := lists[GroupIdx(p.used[s])];
      Linked(nodes', [s] + l) && nodes'.Keys == nodes.Keys && forall q | q in nodes'
          && q !in [s] + l :: nodes'[q] == nodes[q]
    requires Marked(pg, pg', s, s + p.used[s], false)
    ensures var i := GroupIdx(p.used[s]);
      Consistent(Unclaim(p, s), pg', addrs, heads[i := At(s)], lists[i := [s] + lists[i]], nodes',
          freeCount + p.used[s], Null)
  {
    assert IsStart(p, s) && s !in p.free;
    UnclaimKeeps(p, s);
    MarkReflects(pg, pg', p, Unclaim(p, s), addrs, s, false);
    IndexAdded(p, heads, lists, nodes, nodes', s);
    forall t: nat | IsStart(Unclaim(p, s), t) ensures Size(Unclaim(p, s), t) < PAGE_LIMIT {
      assert IsStart(p, t);
    }
  }

  /** Adding a free group pushes its head onto the bucket of its size class. */
  lemma IndexAdded(p: Pages, heads: seq<Ptr>, lists: seq<seq<nat>>, nodes: map<nat, Node>, nodes': map<nat, Node>,
      s: nat)
    requires Indexed(p, heads, lists, nodes) && s in p.used && s !in p.free
    requires p.used[s] < PAGE_LIMIT
    requires GroupIdx(p.used[s]) < GROUP_LISTS
    requires var l := lists[GroupIdx(p.used[s])];
      Linked(nodes', [s] + l) && nodes'.Keys == nodes.Keys && forall q | q in nodes'
          && q !in [s] + l :: nodes'[q] == nodes[q]
    ensures var i := GroupIdx(p.used[s]);
      Indexed(Unclaim(p, s), heads[i := At(s)], lists[i := [s] + lists[i]], nodes')
  {
    var i := GroupIdx(p.used[s]);
    var lists' := lists[i := [s] + lists[i]];
    forall j | 0 <= j < GROUP_LISTS && j != i ensures Linked(nodes', lists[j]) {
      forall x: nat | x in lists[j] ensures x !in lists[i] && x != s {
        assert x in p.free;
        assert GroupIdx(p.free[x]) == j;
      }
      LinkedFrame(nodes, nodes', lists[j]);
    }
  }

  /** The state after removeGroup. */
  lemma RemovedConsistent(p: Pages, pg: seq<Page>, pg': seq<Page>, addrs: seq<nat>, heads: seq<Ptr>,
      lists: seq<seq<nat>>,
                          nodes: map<nat, Node>, nodes': map<nat, Node>, freeCount: nat, s: nat)
    requires Consistent(p, pg, addrs, heads, lists, nodes, freeCount, Null) && s in p.free
    requires GroupIdx(p.free[s]) < GROUP_LISTS && |lists| == |heads| == GROUP_LISTS && s in lists[GroupIdx(p.free[s])]
    requires var l := lists[GroupIdx(p.free[s])];
      Linked(nodes', Without(l, s)) && nodes'.Keys == nodes.Keys && s in nodes' && nodes'[s] == UNLINKED
      && forall q | q in nodes' && q !in l :: nodes'[q] == nodes[q]
    requires Marked(pg, pg', s, s + p.free[s], true)
    requires freeCount >= p.free[s]
    ensures var i := GroupIdx(p.free[s]);
      Consistent(Claim(p, s), pg', addrs, heads[i := Head(Without(lists[i], s))], lists[i := Without(lists[i], s)],
                 nodes', freeCount - p.free[s], Null)
  {
    assert IsStart(p, s);
    ClaimKeeps(p, s);
    MarkReflects(pg, pg', p, Claim(p, s), addrs, s, true);
    IndexRemoved(p, heads, lists, nodes, nodes', s);
    forall t: nat | IsStart(Claim(p, s), t) ensures Size(Claim(p, s), t) < PAGE_LIMIT {
      assert IsStart(p, t);
    }
  }

  lemma IndexRemoved(p: Pages, heads: seq<Ptr>, lists: seq<seq<nat>>, nodes: map<nat, Node>, nodes': map<nat, Node>,
      s: nat)
    requires Indexed(p, heads, lists, nodes) && s in p.free
    requires GroupIdx(p.free[s]) < GROUP_LISTS && s in lists[GroupIdx(p.free[s])]
    requires var l := lists[GroupIdx(p.free[s])];
      Linked(nodes', Without(l, s)) && nodes'.Keys == nodes.Keys && s in nodes' && nodes'[s] == UNLINKED
      && forall q | q in nodes' && q !in l :: nodes'[q] == nodes[q]
    ensures var i := GroupIdx(p.free[s]);
      Indexed(Claim(p, s), heads[i := Head(Without(lists[i], s))], lists[i := Without(lists[i], s)], nodes')
  {
    hide Without, GroupIdx;
    var i := GroupIdx(p.free[s]);
    WithoutFacts(lists[i], s);
    forall j | 0 <= j < GROUP_LISTS && j != i ensures Linked(nodes', lists[j]) {
      forall x: nat | x in lists[j] ensures x !in lists[i] {
        assert x in p.free;
        assert GroupIdx(p.free[x]) == j;
      }
      LinkedFrame(nodes, nodes', lists[j]);
    }
    forall q: nat | q in nodes' && q !in Claim(p, s).free ensures nodes'[q] == UNLINKED {
      if q != s { assert q !in lists[i]; }
    }
  }

  lemma BucketFacts(p: Pages, pg: seq<Page>, addrs: seq<nat>, heads: seq<Ptr>, lists: seq<seq<nat>>,
                    nodes: map<nat, Node>, freeCount: nat, pending: Ptr, i: nat)
    requires Consistent(p, pg, addrs, heads, lists, nodes, freeCount, pending)
    ensures |heads| == |lists| == GROUP_LISTS
    ensures i < GROUP_LISTS ==>
      Linked(nodes, lists[i]) && heads[i] == Head(lists[i]) && forall g | g in lists[i] :: g in p.free
  {
  }

  lemma FreeBound(p: Pages, pg: seq<Page>, addrs: seq<nat>, heads: seq<Ptr>, lists: seq<seq<nat>>,
                  nodes: map<nat, Node>, freeCount: nat, pending: Ptr)
    requires Consistent(p, pg, addrs, heads, lists, nodes, freeCount, pending)
    ensures Tiled(p) && freeCount == Sum(p.free)
    ensures forall g | g in p.free :: p.free[g] <= freeCount
  {
    forall g | g in p.free ensures p.free[g] <= freeCount { SumAtLeast(p.free, g); }
  }

  /** The state after splitGroup of a used group. */
  lemma SplitConsistent(p: Pages, pg: seq<Page>, pg': seq<Page>, addrs: seq<nat>, heads: seq<Ptr>, lists: seq<seq<nat>>,
                        nodes: map<nat, Node>, freeCount: nat, s: nat, k: nat)
    requires Consistent(p, pg, addrs, heads, lists, nodes, freeCount, Null)
    requires s in p.used && 0 < k < p.used[s]
    requires TagAt(pg', s, k) && TagAt(pg', s + k, p.used[s] - k) && OnlyTags(pg, pg', s, s + p.used[s])
    ensures forall pending :: Consistent(Split(p, s, k), pg', addrs, heads, lists, nodes, freeCount, pending)
  {
    hide Indexed, TagAt, UsedAt, OnlyTags;
    TagsOnly(pg, pg', s, s + p.used[s]);
    var q := Split(p, s, k);
    assert IsStart(p, s);
    SplitKeeps(p, s, k);
    IndexSplit(p, heads, lists, nodes, s, k);
    forall t: nat | IsStart(q, t)
      ensures TagAt(pg', t, Size(q, t)) && UsedAt(pg', t, Size(q, t), t in q.used) && Size(q, t) < PAGE_LIMIT
    {
      SplitGroupTags(p, pg, pg', addrs, s, k, t);
    }
  }

  lemma IndexSplit(p: Pages, heads: seq<Ptr>, lists: seq<seq<nat>>, nodes: map<nat, Node>, s: nat, k: nat)
    requires Indexed(p, heads, lists, nodes) && s in p.used && 0 < k < p.used[s]
    ensures Indexed(Split(p, s, k), heads, lists, nodes)
  {
  }

  lemma SplitGroupTags(p: Pages, pg: seq<Page>, pg': seq<Page>, addrs: seq<nat>, s: nat, k: nat, t: nat)
    requires Tiled(p) && Tagged(p) && Reflects(pg, p, addrs, Null) && s in p.used && 0 < k < p.used[s]
    requires TagAt(pg', s, k) && TagAt(pg', s + k, p.used[s] - k) && OnlyTags(pg, pg', s, s + p.used[s])
    requires IsStart(Split(p, s, k), t)
    ensures var q := Split(p, s, k);
      TagAt(pg', t, Size(q, t)) && UsedAt(pg', t, Size(q, t), t in q.used) && Size(q, t) < PAGE_LIMIT
  {
    assert IsStart(p, s);
    SplitKeeps(p, s, k);
    if t == s || t == s + k {
      assert UsedAt(pg, s, p.used[s], true);
    } else {
      assert IsStart(p, t);
      Apart(p, s, t);
      OutsideTags(pg, pg', s, s + p.used[s], t, Size(p, t), t in p.used);
    }
  }

  lemma TagsOnly(pg: seq<Page>, pg': seq<Page>, lo: nat, hi: nat)
    requires OnlyTags(pg, pg', lo, hi)
    ensures |pg| == |pg'| && forall q | 0 <= q < |pg| :: pg'[q].addr == pg[q].addr
  {
  }

  lemma OutsideTags(pg: seq<Page>, pg': seq<Page>, lo: nat, hi: nat, t: nat, k: nat, u: bool)
    requires OnlyTags(pg, pg', lo, hi) && TagAt(pg, t, k) && UsedAt(pg, t, k, u) && (t + k <= lo || hi <= t)
    ensures TagAt(pg', t, k) && UsedAt(pg', t, k, u)
  {
  }

  /** Region geometry that the descriptor addresses follow; fixed by init. */
  ghost predicate Layout(rs: seq<RegionInfo>, pageSize: nat, addrs: seq<nat>, p: Pages)
  {
    && PowerOf2(pageSize) && pageSize < Pow2(WORD)
    && p.n == |addrs|
    && Chained(rs, |addrs|) && Aligned(rs, pageSize) && Separated(rs) && Addressed(rs, pageSize, addrs)
    && p.borders == Borders(rs)
  }

  /** The pages that hold the descriptor array are a used group of their own. */
  ghost predicate Reserved(rs: seq<RegionInfo>, idx: nat, count: nat, p: Pages)
  {
    idx < |rs| && rs[idx].firstPage in p.used && p.used[rs[idx].firstPage] == count
  }

  /** Groups do not leave their region, so their size fits the 21-bit tag. */
  lemma GroupsFitTag(rs: seq<RegionInfo>, pageSize: nat, addrs: seq<nat>, p: Pages, s: nat)
    requires Layout(rs, pageSize, addrs, p) && Tiled(p) && IsStart(p, s)
    ensures Size(p, s) < PAGE_LIMIT
  {
    Apart(p, s, s);
    var i := RegionOfPage(rs, |addrs|, s);
    if i + 1 < |rs| {
      assert rs[i + 1].firstPage in p.borders;
      Apart(p, s, rs[i + 1].firstPage);
    }
  }

  /** A group lies inside the aligned part of one region. */
  lemma GroupInRegion(rs: seq<RegionInfo>, pageSize: nat, addrs: seq<nat>, p: Pages, s: nat) returns (i: nat)
    requires Layout(rs, pageSize, addrs, p) && Tiled(p) && IsStart(p, s)
    ensures i < |rs| && s < |addrs|
    ensures rs[i].alignedStart <= addrs[s] && PageAddress(addrs[s], Size(p, s), pageSize) <= rs[i].alignedEnd
  {
    Apart(p, s, s);
    i := RegionOfPage(rs, |addrs|, s);
    if i + 1 < |rs| {
      assert rs[i + 1].firstPage in p.borders;
      Apart(p, s, rs[i + 1].firstPage);
    }
    assert InRegion(rs[i], s) && addrs[s] == AddressIn(rs[i], s, pageSize);
    RunInRegion(rs[i].alignedStart, s - rs[i].firstPage, Size(p, s), rs[i].pageCount, pageSize);
  }

  lemma RunInRegion(start: nat, k: nat, n: nat, count: nat, pageSize: nat)
    requires k + n <= count
    ensures start <= PageAddress(start, k, pageSize)
    ensures PageAddress(PageAddress(start, k, pageSize), n, pageSize) <= start + count * pageSize
  {
    assert (k + n) * pageSize == k * pageSize + n * pageSize;
    assert (count - k - n) * pageSize >= 0;
    assert (count - k - n) * pageSize == count * pageSize - (k + n) * pageSize;
  }

  lemma AddressIsFloor(rs: seq<RegionInfo>, pageSize: nat, addrs: seq<nat>, p: Pages, q: nat)
    requires Layout(rs, pageSize, addrs, p) && q < p.n
    ensures 1 <= pageSize <= Pow2(WORD) && addrs[q] < Pow2(WORD) && PageFloor(addrs[q], pageSize) == addrs[q]
  {
    var i := RegionOfPage(rs, |addrs|, q);
    AddressFacts(rs[i], q, pageSize);
    PageFloorMeaning(addrs[q], pageSize);
  }

  /** getRegion tells the pages of neighbouring regions apart. */
  lemma RegionsTellBorder(rs: seq<RegionInfo>, pageSize: nat, addrs: seq<nat>, p: Pages, q: nat)
    requires Layout(rs, pageSize, addrs, p) && q + 1 < p.n
    ensures Lookup(rs, addrs[q], 0) != Lookup(rs, addrs[q + 1], 0) <==> q + 1 in p.borders
  {
    var i := LookupPage(rs, pageSize, addrs, q);
    var j := LookupPage(rs, pageSize, addrs, q + 1);
    BorderBetween(rs, |addrs|, i, j, q);
  }

  /** g is the group allocate picks: first fit along the buckets from groupIdx(count) on. */
  ghost predicate FirstFit(p: Pages, lists: seq<seq<nat>>, count: nat, g: nat)
  {
    exists i: nat, j: nat {:trigger lists[i][j]} | i < |lists| && j < |lists[i]| ::
      && GroupIdx(count) <= i && lists[i][j] == g
      && g in p.free && p.free[g] >= count
      && (forall k: nat | k < j :: TooSmall(p, lists[i][k], count))
      && AllTooSmall(p, lists, GroupIdx(count), i, count)
  }

  ghost predicate TooSmall(p: Pages, g: nat, count: nat)
  {
    g in p.free ==> p.free[g] < count
  }

  /** The buckets from..to hold no group of at least count pages. */
  ghost predicate AllTooSmall(p: Pages, lists: seq<seq<nat>>, from: nat, to: nat, count: nat)
  {
    forall i, g: nat | from <= i < to && i < |lists| && g in lists[i] :: TooSmall(p, g, count)
  }

  /** The bucketed search misses no group. */
  lemma SearchComplete(p: Pages, heads: seq<Ptr>, lists: seq<seq<nat>>, nodes: map<nat, Node>, count: nat)
    requires Indexed(p, heads, lists, nodes) && Tagged(p) && AllTooSmall(p, lists, GroupIdx(count), GROUP_LISTS, count)
    ensures forall g | g in p.free :: p.free[g] < count
  {
    forall g | g in p.free ensures p.free[g] < count {
      var i := GroupIdx(p.free[g]);
      assert IsStart(p, g);
      GroupIdxInTable(p.free[g]);
      if p.free[g] >= count { GroupIdxMonotone(count, p.free[g]); }
      assert g in lists[i];
      assert i >= GroupIdx(count) ==> TooSmall(p, g, count);
    }
  }

  lemma FirstFitFound(p: Pages, lists: seq<seq<nat>>, count: nat, i: nat, j: nat)
    requires GroupIdx(count) <= i < |lists| && j < |lists[i]|
    requires lists[i][j] in p.free && p.free[lists[i][j]] >= count
    requires forall k: nat | k < j :: TooSmall(p, lists[i][k], count)
    requires AllTooSmall(p, lists, GroupIdx(count), i, count)
    ensures FirstFit(p, lists, count, lists[i][j])
  {
    var g := lists[i][j];
  }

  /** The law of the index: list i holds exactly the free groups of its sizes. */
  lemma IndexLaw(p: Pages, heads: seq<Ptr>, lists: seq<seq<nat>>, nodes: map<nat, Node>, i: nat)
    requires Indexed(p, heads, lists, nodes) && i < GROUP_LISTS
    ensures i < |lists| && forall g: nat :: g in lists[i] <==> g in p.free && InSizeClass(p.free[g], i)
  {
    hide GroupIdx, InSizeClass, Linked;
    forall g: nat ensures g in lists[i] <==> g in p.free && InSizeClass(p.free[g], i) {
      if g in p.free { GroupIdxClass(p.free[g], i); }
    }
  }

  /** The size class of a fitting free group is no smaller than that of the group that was picked. */
  ghost predicate BestClass(p: Pages, count: nat, g: nat)
    requires g in p.free
  {
    forall f: nat, j: nat | f in p.free && count <= p.free[f] < Pow2(j) && j >= 2 :: p.free[g] < Pow2(j)
  }

  lemma FirstFitClass(p: Pages, heads: seq<Ptr>, lists: seq<seq<nat>>, nodes: map<nat, Node>, count: nat, g: nat)
    requires Indexed(p, heads, lists, nodes) && FirstFit(p, lists, count, g)
    ensures g in p.free && BestClass(p, count, g)
  {
    hide GroupIdx, Linked, Pow2;
    var i: nat, k: nat :| i < |lists| && k < |lists[i]| && GroupIdx(count) <= i && lists[i][k] == g && g in p.free
      && AllTooSmall(p, lists, GroupIdx(count), i, count);
    assert g in lists[i];
    forall f: nat, j: nat | f in p.free && count <= p.free[f] < Pow2(j) && j >= 2 ensures p.free[g] < Pow2(j) {
      NotBefore(p, heads, lists, nodes, count, i, f);
      ClassBound(p.free[f], p.free[g], j);
    }
  }

  lemma NotBefore(p: Pages, heads: seq<Ptr>, lists: seq<seq<nat>>, nodes: map<nat, Node>, count: nat, i: nat, f: nat)
    requires Indexed(p, heads, lists, nodes) && i <= |lists| && AllTooSmall(p, lists, GroupIdx(count), i, count)
    requires f in p.free && count <= p.free[f]
    ensures GroupIdx(p.free[f]) >= i
  {
    hide GroupIdx, Linked;
    GroupIdxMonotone(count, p.free[f]);
    assert GroupIdx(p.free[f]) < |lists| ==> f in lists[GroupIdx(p.free[f])];
    assert !TooSmall(p, f, count);
  }

  lemma ClassBound(f: nat, g: nat, j: nat)
    requires GroupIdx(g) <= GroupIdx(f) && f < Pow2(j) && j >= 2
    ensures g < Pow2(j)
  {
    hide GroupIdx;
    GroupIdxClass(f, GroupIdx(f));
    GroupIdxClass(g, GroupIdx(g));
    assert Pow2(2) == 4;
    if j < GroupIdx(g) + 2 {
      Pow2Mono(j, GroupIdx(f) + 1);
    } else {
      Pow2Mono(GroupIdx(g) + 2, j);
    }
  }

  lemma NextBucket(p: Pages, lists: seq<seq<nat>>, from: nat, i: nat, count: nat)
    requires i < |lists| && AllTooSmall(p, lists, from, i, count)
    requires forall k: nat | k < |lists[i]| :: TooSmall(p, lists[i][k], count)
    ensures AllTooSmall(p, lists, from, i + 1, count)
  {
  }

  lemma SearchMiss(p: Pages, pg: seq<Page>, addrs: seq<nat>, heads: seq<Ptr>, lists: seq<seq<nat>>,
                   nodes: map<nat, Node>, freeCount: nat, i: nat, count: nat)
    requires Consistent(p, pg, addrs, heads, lists, nodes, freeCount, Null)
    requires i >= GROUP_LISTS && AllTooSmall(p, lists, GroupIdx(count), i, count)
    ensures forall g | g in p.free :: p.free[g] < count
  {
    SearchComplete(p, heads, lists, nodes, count);
  }

  lemma LayoutKept(rs: seq<RegionInfo>, pageSize: nat, addrs: seq<nat>, p: Pages, q: Pages)
    requires Layout(rs, pageSize, addrs, p) && q.n == p.n && q.borders == p.borders
    ensures Layout(rs, pageSize, addrs, q)
  {
  }

  /** The state after joinGroup of two used neighbours. */
  lemma JoinConsistent(p: Pages, pg: seq<Page>, pg': seq<Page>, addrs: seq<nat>, heads: seq<Ptr>, lists: seq<seq<nat>>,
                       nodes: map<nat, Node>, freeCount: nat, a: nat, b: nat)
    requires Consistent(p, pg, addrs, heads, lists, nodes, freeCount, Null)
    requires a in p.used && b in p.used && b == a + p.used[a] && b !in p.borders && p.used[a] + p.used[b] < PAGE_LIMIT
    requires TagAt(pg', a, p.used[a] + p.used[b]) && OnlyTags(pg, pg', a, a + p.used[a] + p.used[b])
    ensures a != b && Consistent(Join(p, a, b), pg', addrs, heads, lists, nodes, freeCount, Null)
  {
    hide Indexed, TagAt, UsedAt, OnlyTags;
    TagsOnly(pg, pg', a, a + p.used[a] + p.used[b]);
    assert IsStart(p, a) && IsStart(p, b);
    Apart(p, a, b);
    var q := Join(p, a, b);
    JoinKeeps(p, a, b);
    IndexJoin(p, heads, lists, nodes, a, b);
    forall t: nat | IsStart(q, t)
      ensures TagAt(pg', t, Size(q, t)) && UsedAt(pg', t, Size(q, t), t in q.used) && Size(q, t) < PAGE_LIMIT
    {
      JoinGroupTags(p, pg, pg', addrs, a, b, t);
    }
  }

  lemma IndexJoin(p: Pages, heads: seq<Ptr>, lists: seq<seq<nat>>, nodes: map<nat, Node>, a: nat, b: nat)
    requires Indexed(p, heads, lists, nodes) && a in p.used && b in p.used && a != b
    ensures Indexed(Join(p, a, b), heads, lists, nodes)
  {
  }

  lemma JoinGroupTags(p: Pages, pg: seq<Page>, pg': seq<Page>, addrs: seq<nat>, a: nat, b: nat, t: nat)
    requires Tiled(p) && Tagged(p) && Reflects(pg, p, addrs, Null)
    requires a in p.used && b in p.used && a != b && b == a + p.used[a] && p.used[a] + p.used[b] < PAGE_LIMIT
    requires TagAt(pg', a, p.used[a] + p.used[b]) && OnlyTags(pg, pg', a, a + p.used[a] + p.used[b])
    requires IsStart(Join(p, a, b), t)
    ensures var q := Join(p, a, b);
      TagAt(pg', t, Size(q, t)) && UsedAt(pg', t, Size(q, t), t in q.used) && Size(q, t) < PAGE_LIMIT
  {
    assert IsStart(p, a) && IsStart(p, b);
    if t == a {
      assert UsedAt(pg, a, p.used[a], true) && UsedAt(pg, b, p.used[b], true);
    } else {
      assert IsStart(p, t) && t != b;
      Apart(p, a, t);
      Apart(p, b, t);
      OutsideTags(pg, pg', a, a + p.used[a] + p.used[b], t, Size(p, t), t in p.used);
    }
  }

  lemma AbsorbFits(rs: seq<RegionInfo>, pageSize: nat, addrs: seq<nat>, p: Pages, first: nat, second: nat, g: nat)
    requires Layout(rs, pageSize, addrs, p) && Tiled(p) && Coalesced(p)
    requires first != second && g in p.free && g in {first, second} && (if g == first then second else first) in p.used
    requires second == End(p, first) && second !in p.borders
    ensures var c := Claim(p, g);
      first in c.used && second in c.used
      && second == first + c.used[first] && c.used[first] + c.used[second] < PAGE_LIMIT && second !in c.borders
      && first < second
  {
    AbsorbKeeps(p, first, second, g);
    assert p.free.Keys !! p.used.Keys;
    Apart(p, first, second);
    var q := Absorb(p, first, second, g);
    GroupsFitTag(rs, pageSize, addrs, q, first);
  }

  /** The descriptor just before page j is the last one of the group that ends at j; its tag leads to
      the first page of that group and its used bit is that of the group. */
  lemma TagsLeadUp(p: Pages, pg: seq<Page>, addrs: seq<nat>, heads: seq<Ptr>, lists: seq<seq<nat>>,
                   nodes: map<nat, Node>, freeCount: nat, j: nat) returns (t: nat)
    requires Consistent(p, pg, addrs, heads, lists, nodes, freeCount, Null) && IsStart(p, j) && j > 0
    ensures j <= |pg| && IsStart(p, t) && End(p, t) == j
    ensures j - pg[j - 1].groupSize == t
    ensures pg[j - 1].used <==> t in p.used
    ensures t in p.used ==> forall u | u in p.free :: End(p, u) != j
  {
    Apart(p, j, j);
    t := Predecessor(p, j);
    assert TagAt(pg, t, Size(p, t)) && UsedAt(pg, t, Size(p, t), t in p.used);
    assert t <= j - 1 < j;
    assert t in p.used ==> t !in p.free;
    forall u | u in p.free && t in p.used ensures End(p, u) != j {
      Apart(p, t, u);
    }
  }

  /** The used bit of the descriptor at a group's start tells whether the group is free. */
  lemma TagsLeadDown(p: Pages, pg: seq<Page>, addrs: seq<nat>, heads: seq<Ptr>, lists: seq<seq<nat>>,
                     nodes: map<nat, Node>, freeCount: nat, j: nat)
    requires Consistent(p, pg, addrs, heads, lists, nodes, freeCount, Null) && IsStart(p, j)
    ensures 0 < End(p, j) <= p.n <= |pg| && End(p, j) == j + Size(p, j)
    ensures var e := End(p, j); e < p.n ==> IsStart(p, e) && (pg[e].used <==> e in p.used)
    ensures forall q | 0 <= q < p.n :: pg[q].addr == addrs[q]
  {
    Apart(p, j, j);
    var e := End(p, j);
    if e < p.n {
      assert IsStart(p, e);
      Apart(p, e, e);
      assert TagAt(pg, e, Size(p, e)) && UsedAt(pg, e, Size(p, e), e in p.used);
    }
  }

  /** No free group of the same region ends where the group at j starts. */
  ghost predicate JoinedAbove(p: Pages, j: nat)
  {
    j !in p.borders ==> forall t | t in p.free :: End(p, t) != j
  }

  /** No free group of the same region starts where the group at j ends. */
  ghost predicate JoinedBelow(p: Pages, j: nat)
    requires IsStart(p, j)
  {
    End(p, j) in p.free ==> End(p, j) in p.borders
  }

  lemma AbsorbedBelow(p: Pages, j: nat, e: nat)
    requires Tiled(p) && Coalesced(p) && j in p.used && e in p.free && e == End(p, j) && e !in p.borders
    requires JoinedAbove(p, j)
    ensures e != j && JoinedAbove(Absorb(p, j, e, e), j)
  {
    Apart(p, j, j);
    AbsorbKeeps(p, j, e, e);
    var q := Absorb(p, j, e, e);
    forall t | t in q.free ensures End(q, t) == End(p, t) { }
  }

  lemma PageSizeFits(rs: seq<RegionInfo>, pageSize: nat, addrs: seq<nat>, p: Pages)
    requires Layout(rs, pageSize, addrs, p)
    ensures 1 <= pageSize <= Pow2(WORD)
  {
  }

  lemma RegionInArray(rs: seq<RegionInfo>, n: nat, i: nat)
    requires Chained(rs, n) && i < |rs|
    ensures rs[i].firstPage <= rs[i].lastPage < n
  {
    if i + 1 < |rs| {
      RegionsOrdered(rs, n, i, |rs| - 1);
    }
  }

  lemma FloorOnce(rs: seq<RegionInfo>, pageSize: nat, addrs: seq<nat>, p: Pages, addr: nat)
    requires Layout(rs, pageSize, addrs, p) && addr < Pow2(WORD)
    ensures 1 <= pageSize <= Pow2(WORD)
    ensures PageFloor(addr, pageSize) <= addr < PageFloor(addr, pageSize) + pageSize
    ensures PageFloor(PageFloor(addr, pageSize), pageSize) == PageFloor(addr, pageSize)
  {
    hide Pow2, PageFloor, Floor;
    PageFloorIsFloor(addr, pageSize);
    FloorFacts(addr, pageSize);
    PageFloorIsFloor(Floor(addr, pageSize), pageSize);
    FloorFacts(Floor(addr, pageSize), pageSize);
  }

  /** The page that contains an address starts at its page floor and is found through its region. */
  lemma ContainedPage(rs: seq<RegionInfo>, pageSize: nat, addrs: seq<nat>, p: Pages, addr: nat, q: nat)
    requires Layout(rs, pageSize, addrs, p) && addr < Pow2(WORD) && q < p.n
    ensures 1 <= pageSize <= Pow2(WORD)
    ensures addrs[q] <= addr < addrs[q] + pageSize ==>
      && addrs[q] == PageFloor(addr, pageSize)
      && Lookup(rs, PageFloor(addr, pageSize), 0).Some?
      && Lookup(rs, PageFloor(addr, pageSize), 0).value < |rs|
      && InRegion(rs[Lookup(rs, PageFloor(addr, pageSize), 0).value], q)
  {
    hide Pow2, PageFloor, Lookup, Separated;
    PageSizeFits(rs, pageSize, addrs, p);
    var i := LookupPage(rs, pageSize, addrs, q);
    AddressFacts(rs[i], q, pageSize);
    if addrs[q] <= addr < addrs[q] + pageSize {
      FloorInPage(addr, pageSize, addrs[q]);
    }
  }

  lemma UsedIsStart(p: Pages, j: nat)
    requires j in p.used
    ensures IsStart(p, j)
  {
  }

  lemma UsedGroupSize(p: Pages, j: nat)
    requires Tiled(p) && j in p.used
    ensures IsStart(p, j) && Size(p, j) == p.used[j]
  {
  }

  lemma ZeroIsBorder(p: Pages, j: nat)
    requires Tiled(p) && j == 0 < p.n
    ensures JoinedAbove(p, j)
  {
  }

  lemma StartIsFreeOrUsed(p: Pages, e: nat)
    requires Tiled(p) && IsStart(p, e)
    ensures e in p.used <==> e !in p.free
  {
  }

  lemma NoGroupAtEnd(p: Pages, e: nat)
    requires Tiled(p) && e >= p.n
    ensures e !in p.free
  {
    if IsStart(p, e) { Apart(p, e, e); }
  }

  lemma PendingIgnored(p: Pages, pg: seq<Page>, addrs: seq<nat>, heads: seq<Ptr>, lists: seq<seq<nat>>,
                       nodes: map<nat, Node>, freeCount: nat, s: nat)
    requires Consistent(p, pg, addrs, heads, lists, nodes, freeCount, Null)
    ensures Consistent(p, pg, addrs, heads, lists, nodes, freeCount, At(s))
  {
  }

  lemma ReservedKept(rs: seq<RegionInfo>, idx: nat, count: nat, p: Pages, q: Pages, s: nat)
    requires Reserved(rs, idx, count, p) && q.used == p.used - {s} && s != rs[idx].firstPage
    ensures Reserved(rs, idx, count, q)
  {
  }

  lemma AtBorder(p: Pages, j: nat)
    requires j in p.borders
    ensures JoinedAbove(p, j)
  {
  }

  lemma AtBorderBelow(p: Pages, j: nat)
    requires IsStart(p, j) && End(p, j) in p.borders
    ensures JoinedBelow(p, j)
  {
  }

  lemma FinalUnclaim(p: Pages, j: nat)
    requires Tiled(p) && Coalesced(p) && j in p.used && JoinedAbove(p, j) && JoinedBelow(p, j)
    ensures Coalesced(Unclaim(p, j)) && Unclaim(p, j).used == p.used - {j}
    ensures Unclaim(p, j).n == p.n && Unclaim(p, j).borders == p.borders
  {
    UnclaimKeeps(p, j);
  }

  // ----- init, region by region

  const MINIMAL_PAGE_SIZE: nat := 128
  const MAX_REGIONS: nat := 8

  predicate IsValidPageSize(pageSize: nat)
  {
    pageSize >= MINIMAL_PAGE_SIZE && IsPowerOf2(pageSize)
  }

  /** The page partition right after init: everything is free but the descriptor pages. */
  ghost predicate InitialPartition(p: Pages, first: nat, count: nat)
  {
    Tiled(p) && Coalesced(p) && p.used == map[first := count]
  }

  lemma FirstFits(table: seq<RegionInfo>)
    requires SoundTable(table) && |table| > 0
    ensures Fits(table[0], TotalPages(table))
  {
  }

  lemma NothingStarted(rs: seq<RegionInfo>, pageSize: nat)
    ensures Chained(rs[..0], 0) && Addressed(rs[..0], pageSize, []) && Borders(rs[..0]) == {}
      && TotalPages(rs[..0]) == 0
    ensures SameTable(rs, rs)
  {
  }

  lemma TableFacts(rs: seq<RegionInfo>, table: seq<RegionInfo>, n: nat, idx: nat, pageSize: nat)
    requires SameTable(rs, table) && idx < |table| && Fits(table[idx], n) && Aligned(table, pageSize)
      && Separated(table)
    requires forall j | 0 <= j < |table| && Fits(table[j], n) :: table[idx].alignedSize <= table[j].alignedSize
    ensures Aligned(rs, pageSize) && Separated(rs) && Fits(rs[idx], n)
    ensures forall j | 0 <= j < |rs| && Fits(rs[j], n) :: rs[idx].alignedSize <= rs[j].alignedSize
  {
    SameTableFacts(rs, table, pageSize);
    assert forall j | 0 <= j < |rs| :: rs[j].alignedSize == table[j].alignedSize;
  }

  lemma SameTableLength(rs: seq<RegionInfo>, table: seq<RegionInfo>)
    requires SameTable(rs, table)
    ensures |rs| == |table|
  {
  }

  lemma EmptyConsistent(p: Pages, pg: seq<Page>)
    requires p == Pages(0, {}, map[], map[])
    ensures Consistent(p, pg, [], seq(GROUP_LISTS, _ => Null), seq(GROUP_LISTS, _ => []), map[], 0, Null)
      && Coalesced(p)
  {
  }

  /** The next region: c pages in one used group behind all pages so far. */
  ghost function Extended(p: Pages, c: nat): Pages
  {
    p.(n := p.n + c, borders := p.borders + {p.n}, used := p.used[p.n := c])
  }

  lemma ExtendedKeeps(p: Pages, c: nat)
    requires Tiled(p) && c > 0
    ensures Tiled(Extended(p, c)) && (Coalesced(p) ==> Coalesced(Extended(p, c)))
    ensures p.n !in p.used && p.n !in p.free
    ensures IsStart(Extended(p, c), p.n) && End(Extended(p, c), p.n) == p.n + c
  {
    var q := Extended(p, c);
    if IsStart(p, p.n) { Apart(p, p.n, p.n); }
    assert End(q, p.n) == p.n + c;
    forall s: nat | IsStart(p, s) ensures End(q, s) == End(p, s) && s < End(p, s) <= p.n {
      Apart(p, s, s);
    }
    forall s: nat, t: nat | IsStart(q, s) && IsStart(q, t) && s < t ensures End(q, s) <= t {
      if t != p.n { Apart(p, t, t); }
      if s != p.n { Apart(p, s, s); }
      if t != p.n && s != p.n { Apart(p, s, t); }
    }
    if p.n > 0 { assert 0 in p.borders; }
    forall b | b in q.borders ensures IsStart(q, b) {
      if b != p.n { assert IsStart(p, b); }
    }
    if Coalesced(p) {
      forall s | s in q.free && End(q, s) in q.free ensures End(q, s) in q.borders {
        assert IsStart(p, s);
      }
    }
  }

  lemma RegionAddedFree(p: Pages, c: nat)
    requires Tiled(p) && Coalesced(p) && c > 0
    ensures var e := Extended(p, c);
      && p.n in e.used && Tiled(e)
      && Coalesced(Unclaim(e, p.n)) && Unclaim(e, p.n).used == p.used
      && Unclaim(e, p.n).n == p.n + c && Unclaim(e, p.n).borders == p.borders + {p.n}
  {
    ExtendedKeeps(p, c);
    var e := Extended(p, c);
    UnclaimKeeps(e, p.n);
    if End(e, p.n) in p.free { Apart(p, End(e, p.n), End(e, p.n)); }
    assert Unclaim(e, p.n).used == p.used;
  }

  /** The descriptor region keeps k reserved pages; the remaining pages of the region become free. */
  lemma RegionAddedReserved(p: Pages, c: nat, k: nat)
    requires Tiled(p) && Coalesced(p) && p.used == map[] && 0 < k < c
    ensures var e := Extended(p, c);
      && p.n in e.used && e.used[p.n] == c && Tiled(e)
      && var q := Split(e, p.n, k);
      && p.n + k in q.used && Coalesced(Unclaim(q, p.n + k)) && Unclaim(q, p.n + k).used == map[p.n := k]
      && Unclaim(q, p.n + k).n == p.n + c && Unclaim(q, p.n + k).borders == p.borders + {p.n}
  {
    ExtendedKeeps(p, c);
    var e := Extended(p, c);
    SplitKeeps(e, p.n, k);
    var q := Split(e, p.n, k);
    var m := p.n + k;
    assert q.used == map[p.n := k, m := c - k];
    RestIsLast(q, p.n, m);
    assert Unclaim(q, m).used == map[p.n := k];
  }

  lemma RegionAllReserved(p: Pages, c: nat)
    requires Tiled(p) && Coalesced(p) && p.used == map[] && c > 0
    ensures Coalesced(Extended(p, c)) && Extended(p, c).used == map[p.n := c] && Tiled(Extended(p, c))
    ensures Split(Extended(p, c), p.n, c) == Extended(p, c)
  {
    ExtendedKeeps(p, c);
  }

  lemma RestIsLast(q: Pages, s: nat, m: nat)
    requires Tiled(q) && Coalesced(q) && s in q.used && m in q.used && End(q, s) == m && End(q, m) == q.n
    ensures Coalesced(Unclaim(q, m))
  {
    UnclaimKeeps(q, m);
    forall t | t in q.free ensures End(q, t) != m {
      assert IsStart(q, s);
      Apart(q, s, t);
    }
    if q.n in q.free { Apart(q, q.n, q.n); }
  }

  /** Freshly initialized descriptors of one region. */
  ghost predicate FreshPages(pg: seq<Page>, first: nat, count: nat, start: nat, pageSize: nat)
  {
    first + count <= |pg|
    && forall q | first <= q < first + count :: pg[q] == Page(PageAddress(start, q - first, pageSize), 0, false)
  }

  /** The state after the descriptors of the next region were initialized and tagged. */
  lemma ExtendedConsistent(p: Pages, pg: seq<Page>, pg': seq<Page>, addrs: seq<nat>, heads: seq<Ptr>,
      lists: seq<seq<nat>>,
                           nodes: map<nat, Node>, nodes': map<nat, Node>, freeCount: nat, c: nat, start: nat,
                               pageSize: nat)
    requires Consistent(p, pg, addrs, heads, lists, nodes, freeCount, Null) && 0 < c < PAGE_LIMIT
    requires |pg'| == |pg| && p.n + c <= |pg| && TagAt(pg', p.n, c)
    requires forall q | 0 <= q < p.n :: pg'[q] == pg[q]
    requires forall q | p.n <= q < p.n + c :: pg'[q].addr == PageAddress(start, q - p.n, pageSize)
    requires forall q :: q in nodes' <==> q in nodes || p.n <= q < p.n + c
    requires forall q | q in nodes' :: nodes'[q] == if p.n <= q < p.n + c then UNLINKED else nodes[q]
    ensures Consistent(Extended(p, c), pg', addrs + AddressRun(start, c, pageSize),
                       heads, lists, nodes', freeCount, At(p.n))
  {
    hide Indexed, PageAddress, AddressRun, TagAt, UsedAt;
    var q := Extended(p, c);
    ExtendedKeeps(p, c);
    IndexExtended(p, heads, lists, nodes, nodes', c);
    forall t: nat | IsStart(q, t)
      ensures TagAt(pg', t, Size(q, t)) && Size(q, t) < PAGE_LIMIT
      ensures t != p.n ==> UsedAt(pg', t, Size(q, t), t in q.used)
    {
      if t != p.n {
        assert IsStart(p, t);
        Apart(p, t, t);
        SamePrefix(pg, pg', p.n, t, Size(p, t), t in p.used);
      }
    }
  }

  lemma ExtendedFields(p: Pages, c: nat)
    ensures Extended(p, c).n == p.n + c && Extended(p, c).borders == p.borders + {p.n}
    ensures Extended(p, c).used == p.used[p.n := c]
  {
  }

  lemma RegionRoom(rs: seq<RegionInfo>, table: seq<RegionInfo>, pageSize: nat, i: nat, n: nat)
    requires SameTable(rs, table) && Aligned(table, pageSize) && i < |rs| && n == TotalPages(table)
    ensures pageSize > 0 && 0 < rs[i].pageCount < PAGE_LIMIT
    ensures TotalPages(table[..i]) + rs[i].pageCount == TotalPages(table[..i + 1]) <= n
    ensures rs[i].alignedEnd == PageAddress(rs[i].alignedStart, rs[i].pageCount, pageSize)
    ensures rs[i].alignedSize == PageAddress(0, rs[i].pageCount, pageSize)
  {
    SameTableFacts(rs, table, pageSize);
    TotalPagesPrefix(table, i);
    assert rs[i].pageCount == table[i].pageCount;
  }

  lemma FreshTagged(pg: seq<Page>, pg1: seq<Page>, pg2: seq<Page>, n: nat, c: nat, start: nat, pageSize: nat)
    requires |pg| == |pg1| && n + c <= |pg| && c > 0 && FreshPages(pg1, n, c, start, pageSize)
    requires forall q | 0 <= q < n :: pg1[q] == pg[q]
    requires pg2 == Stamped(pg1, n, n + c - 1, c)
    ensures |pg2| == |pg| && TagAt(pg2, n, c) && UsedAt(pg2, n, c, false)
    ensures forall q | 0 <= q < n :: pg2[q] == pg[q]
    ensures forall q | n <= q < n + c :: pg2[q].addr == PageAddress(start, q - n, pageSize)
  {
  }

  lemma DescRegionFits(rs: seq<RegionInfo>, table: seq<RegionInfo>, pageSize: nat, i: nat, n: nat)
    requires SameTable(rs, table) && Aligned(table, pageSize) && i < |rs| && Fits(table[i], n)
    ensures PageAddress(0, rs[i].pageCount, pageSize) >= ArrayBytes(n)
  {
    SameTableFacts(rs, table, pageSize);
    assert rs[i].alignedSize == table[i].alignedSize;
  }

  /** Marking pages does not touch the tags. */
  lemma MarkedTags(pg: seq<Page>, pg': seq<Page>, s: nat, c: nat, k: nat)
    requires TagAt(pg, s, c) && 1 <= k <= c && Marked(pg, pg', s, s + k, true)
    ensures TagAt(pg', s, c) && UsedAt(pg', s, k, true) && pg'[s].groupSize == c
    ensures forall q | 0 <= q < |pg| :: pg'[q].addr == pg[q].addr
    ensures forall q | 0 <= q < |pg| && (q < s || s + c <= q) :: pg'[q] == pg[q]
  {
  }

  /** Splitting off the marked pages only touches tags of the group. */
  lemma SplitMarked(pg0: seq<Page>, pg1: seq<Page>, pg2: seq<Page>, s: nat, c: nat, k: nat)
    requires 1 <= k <= c && s + c <= |pg0| == |pg1| && UsedAt(pg1, s, k, true)
    requires forall q | 0 <= q < |pg0| :: pg1[q].addr == pg0[q].addr
    requires forall q | 0 <= q < |pg0| && (q < s || s + c <= q) :: pg1[q] == pg0[q]
    requires OnlyTags(pg1, pg2, s, s + c)
    ensures |pg2| == |pg0| && UsedAt(pg2, s, k, true)
    ensures forall q | 0 <= q < |pg0| :: pg2[q].addr == pg0[q].addr
    ensures forall q | 0 <= q < |pg0| && (q < s || s + c <= q) :: pg2[q] == pg0[q]
  {
  }

  lemma SamePrefix(pg: seq<Page>, pg': seq<Page>, n: nat, t: nat, k: nat, u: bool)
    requires |pg| == |pg'| && t + k <= n <= |pg| && (forall q | 0 <= q < n :: pg'[q] == pg[q])
    requires TagAt(pg, t, k) && UsedAt(pg, t, k, u)
    ensures TagAt(pg', t, k) && UsedAt(pg', t, k, u)
  {
  }

  lemma IndexExtended(p: Pages, heads: seq<Ptr>, lists: seq<seq<nat>>, nodes: map<nat, Node>, nodes': map<nat, Node>,
      c: nat)
    requires Tiled(p) && Indexed(p, heads, lists, nodes) && c > 0
    requires forall q: nat :: q in nodes <==> q < p.n
    requires forall q :: q in nodes' <==> q in nodes || p.n <= q < p.n + c
    requires forall q | q in nodes' :: nodes'[q] == if p.n <= q < p.n + c then UNLINKED else nodes[q]
    ensures Indexed(Extended(p, c), heads, lists, nodes')
  {
    hide Tiled, GroupIdx;
    forall i | 0 <= i < GROUP_LISTS ensures Linked(nodes', lists[i]) {
      LinkedFrame(nodes, nodes', lists[i]);
    }
  }

  /** The state after the descriptor pages at the front of the region at s were reserved and split off. */
  lemma ReservedConsistent(p: Pages, pg: seq<Page>, pg': seq<Page>, addrs: seq<nat>, heads: seq<Ptr>,
                           lists: seq<seq<nat>>, nodes: map<nat, Node>, freeCount: nat, s: nat, k: nat)
    requires Consistent(p, pg, addrs, heads, lists, nodes, freeCount, At(s))
    requires s in p.used && 0 < k <= p.used[s]
    requires |pg'| == |pg| && (forall q | 0 <= q < |pg| :: pg'[q].addr == pg[q].addr)
    requires forall q | 0 <= q < |pg| && (q < s || s + p.used[s] <= q) :: pg'[q] == pg[q]
    requires TagAt(pg', s, k) && UsedAt(pg', s, k, true) && (k < p.used[s] ==> TagAt(pg', s + k, p.used[s] - k))
    ensures Consistent(Split(p, s, k), pg', addrs, heads, lists, nodes, freeCount, if k < p.used[s] then At(s + k)
      else Null)
  {
    hide Indexed, TagAt, UsedAt;
    var q := Split(p, s, k);
    assert IsStart(p, s);
    SplitKeeps(p, s, k);
    if k < p.used[s] { IndexSplit(p, heads, lists, nodes, s, k); }
    forall t: nat | IsStart(q, t)
      ensures TagAt(pg', t, Size(q, t)) && Size(q, t) < PAGE_LIMIT
      ensures t != s + k || k == p.used[s] ==> UsedAt(pg', t, Size(q, t), t in q.used)
    {
      if t != s && !(t == s + k && k < p.used[s]) {
        assert IsStart(p, t);
        Apart(p, s, t);
        SameOutside(pg, pg', s, s + p.used[s], t, Size(p, t), t in p.used);
      }
    }
  }

  lemma SameOutside(pg: seq<Page>, pg': seq<Page>, lo: nat, hi: nat, t: nat, k: nat, u: bool)
    requires |pg'| == |pg| && (forall q | 0 <= q < |pg| && (q < lo || hi <= q) :: pg'[q] == pg[q])
    requires TagAt(pg, t, k) && UsedAt(pg, t, k, u) && (t + k <= lo || hi <= t)
    ensures TagAt(pg', t, k) && UsedAt(pg', t, k, u)
  {
  }

  lemma FreshPageAdded(pg: seq<Page>, first: nat, k: nat, start: nat, pageSize: nat)
    requires FreshPages(pg, first, k, start, pageSize) && first + k < |pg|
    ensures FreshPages(pg[first + k := Page(PageAddress(start, k, pageSize), 0, false)], first, k + 1, start, pageSize)
  {
  }

  datatype PageStats = PageStats(
    totalMemorySize: nat, effectiveMemorySize: nat, userMemorySize: nat, freeMemorySize: nat,
    pageSize: nat, totalPagesCount: nat, reservedPagesCount: nat, freePagesCount: nat)

  lemma LayoutTotals(rs: seq<RegionInfo>, pageSize: nat, addrs: seq<nat>, p: Pages)
    requires Layout(rs, pageSize, addrs, p)
    ensures TotalAligned(rs) == Times(p.n, pageSize) <= TotalSize(rs) && p.n <= Times(|rs|, PAGE_LIMIT)
  {
    TotalsBound(rs, |addrs|, pageSize);
  }

  lemma NothingSummed(rs: seq<RegionInfo>)
    ensures Truncate(TotalSize(rs[..0]), UINT) == 0 && Truncate(TotalAligned(rs[..0]), UINT) == 0
  {
    TruncateSmall(0, UINT);
  }

  class PageAllocator {
    var regionsInfo: seq<RegionInfo>
    var pageSize: nat
    var descRegionIdx: nat
    var descPagesCount: nat
    var pages: array<Page>
    var links: ListNodes
    var freeGroupLists: seq<Ptr>
    var pagesCount: nat
    var freePagesCount: nat

    ghost var st: Pages
    ghost var addrs: seq<nat>
    ghost var lists: seq<seq<nat>>

    ghost predicate Core(pending: Ptr)
      reads this, pages, links
    {
      Consistent(st, pages[..], addrs, freeGroupLists, lists, links.nodes, freePagesCount, pending)
    }

    constructor ()
      ensures fresh(pages) && fresh(links)
      ensures pagesCount == 0 && freePagesCount == 0 && regionsInfo == []
    {
      pages := new Page[0];
      links := new ListNodes();
      regionsInfo, pageSize, descRegionIdx, descPagesCount := [], 0, 0, 0;
      freeGroupLists := seq(GROUP_LISTS, _ => Null);
      pagesCount, freePagesCount := 0, 0;
    }

    method AddGroup(group: nat)
      requires group in st.used && Core(At(group))
      modifies this`freeGroupLists, this`freePagesCount, this`st, this`lists, links, pages
      ensures st == Unclaim(old(st), group)
      ensures Core(Null)
    {
      hide Consistent, Tiled, Unclaim, Linked;
      ghost var k := st.used[group];
      GroupFacts(st, pages[..], addrs, freeGroupLists, lists, links.nodes, freePagesCount, At(group), group);
      var idx := GroupIdx(pages[group].groupSize);
      var head := links.AddToList(group, freeGroupLists[idx], lists[idx]);
      ghost var heads', lists' := freeGroupLists[idx := head], lists[idx := [group] + lists[idx]];
      freeGroupLists := freeGroupLists[idx := head];
      freePagesCount := freePagesCount + pages[group].groupSize;
      MarkPages(group, k, false);
      AddedConsistent(old(st), old(pages[..]), pages[..], addrs, old(freeGroupLists), old(lists),
                      old(links.nodes), links.nodes, old(freePagesCount), group);
      st, lists := Unclaim(st, group), lists';
    }

    method RemoveGroup(group: nat)
      requires group in st.free && Core(Null)
      modifies this`freeGroupLists, this`freePagesCount, this`st, this`lists, links, pages
      ensures st == Claim(old(st), group)
      ensures Core(Null)
      ensures freePagesCount == old(freePagesCount) - old(st).free[group]
    {
      hide Consistent, Tiled, Claim, Linked, Without;
      ghost var k := st.free[group];
      GroupFacts(st, pages[..], addrs, freeGroupLists, lists, links.nodes, freePagesCount, Null, group);
      var idx := GroupIdx(pages[group].groupSize);
      var head := links.RemoveFromList(group, freeGroupLists[idx], lists[idx]);
      ghost var lists' := lists[idx := Without(lists[idx], group)];
      freeGroupLists := freeGroupLists[idx := head];
      freePagesCount := freePagesCount - pages[group].groupSize;
      MarkPages(group, k, true);
      RemovedConsistent(old(st), old(pages[..]), pages[..], addrs, old(freeGroupLists), old(lists),
                        old(links.nodes), links.nodes, old(freePagesCount), group);
      st, lists := Claim(st, group), lists';
    }

    /** The loop `for (i < group->groupSize()) (group + i)->setUsed(value)`. */
    method MarkPages(group: nat, ghost k: nat, used: bool)
      requires TagAt(pages[..], group, k)
      modifies pages
      ensures Marked(old(pages[..]), pages[..], group, group + k, used)
    {
      var i := 0;
      while i < pages[group].groupSize
        invariant 0 <= i <= k && pages[group].groupSize == k
        invariant forall q | 0 <= q < pages.Length ::
          pages[q] == if group <= q < group + i then old(pages[q]).(used := used) else old(pages[q])
      {
        pages[group + i] := pages[group + i].(used := used);
        i := i + 1;
      }
    }

    ghost predicate Valid()
      reads this, pages, links
    {
      && Core(Null)
      && Coalesced(st)
      && Layout(regionsInfo, pageSize, addrs, st)
      && Reserved(regionsInfo, descRegionIdx, descPagesCount, st)
      && pagesCount == st.n == pages.Length
    }

    method GetRegion(addr: nat) returns (r: Option<nat>)
      requires 1 <= pageSize <= Pow2(WORD)
      ensures r == Lookup(regionsInfo, PageFloor(addr, pageSize), 0)
    {
      var alignedAddr := PageFloor(addr, pageSize);
      var i := 0;
      while i < |regionsInfo|
        invariant i <= |regionsInfo|
        invariant Lookup(regionsInfo, alignedAddr, 0) == Lookup(regionsInfo, alignedAddr, i)
      {
        if Contains(regionsInfo[i], alignedAddr) {
          return Some(i);
        }
        i := i + 1;
      }
      return None;
    }

    predicate IsValidPage(page: int)
      reads this
    {
      0 <= page <= pagesCount - 1
    }

    method Allocate(count: nat) returns (r: Ptr)
      requires Valid()
      modifies this`freeGroupLists, this`freePagesCount, this`st, this`lists, links, pages
      ensures Valid()
      ensures r.Null? <==> count == 0 || forall g | g in old(st).free :: old(st).free[g] < count
      ensures r.Null? ==> st == old(st) && lists == old(lists) && freePagesCount == old(freePagesCount)
      ensures r.At? ==>
        && FirstFit(old(st), old(lists), count, r.addr)
        && r.addr in old(st).free && BestClass(old(st), count, r.addr)
        && 0 < count <= old(st).free[r.addr] && Tiled(old(st))
        && st == AllocateAt(old(st), r.addr, count)
        && freePagesCount == old(freePagesCount) - count
    {
      hide Consistent, Tiled, Coalesced, Layout, Reserved, Linked, GroupIdx, AllocateAt, IsStart, BestClass;
      FreeBound(st, pages[..], addrs, freeGroupLists, lists, links.nodes, freePagesCount, Null);
      if freePagesCount < count || count == 0 {
        return Null;
      }
      var idx := GroupIdx(count);
      var i := idx;
      while i < |freeGroupLists|
        invariant Valid() && st == old(st) && lists == old(lists) && freePagesCount == old(freePagesCount)
        invariant idx <= i
        invariant AllTooSmall(st, lists, idx, i, count)
        decreases GROUP_LISTS - i
      {
        BucketFacts(st, pages[..], addrs, freeGroupLists, lists, links.nodes, freePagesCount, Null, i);
        var group := freeGroupLists[i];
        ghost var j: nat := 0;
        while group.At?
          invariant Valid() && st == old(st) && lists == old(lists) && freePagesCount == old(freePagesCount)
          invariant j <= |lists[i]|
          invariant group == if j < |lists[i]| then At(lists[i][j]) else Null
          invariant forall k: nat | k < j :: TooSmall(st, lists[i][k], count)
          decreases |lists[i]| - j
        {
          var g := group.addr;
          BucketFacts(st, pages[..], addrs, freeGroupLists, lists, links.nodes, freePagesCount, Null, i);
          NextInList(links.nodes, lists[i], j);
          FreeGroupFacts(g);
          if pages[g].groupSize >= count {
            FirstFitFound(st, lists, count, i, j);
            BestClassFound(count, g);
            r := Take(g, count);
            return;
          }
          group := links.nodes[g].next;
          j := j + 1;
        }
        NextBucket(st, lists, idx, i, count);
        i := i + 1;
      }
      BucketFacts(st, pages[..], addrs, freeGroupLists, lists, links.nodes, freePagesCount, Null, 0);
      SearchMiss(st, pages[..], addrs, freeGroupLists, lists, links.nodes, freePagesCount, i, count);
      return Null;
    }

    lemma BestClassFound(count: nat, g: nat)
      requires Core(Null) && FirstFit(st, lists, count, g)
      ensures g in st.free && BestClass(st, count, g)
    {
      FirstFitClass(st, freeGroupLists, lists, links.nodes, count, g);
    }

    /** The 20 lists: list i holds exactly the free groups of its sizes. */
    lemma SizeClasses(i: nat)
      requires Valid() && i < GROUP_LISTS
      ensures i < |lists| == |freeGroupLists| && Linked(links.nodes, lists[i]) && freeGroupLists[i] == Head(lists[i])
      ensures forall g: nat :: g in lists[i] <==> g in st.free && InSizeClass(st.free[g], i)
    {
      IndexLaw(st, freeGroupLists, lists, links.nodes, i);
    }

    lemma FreeGroupFacts(g: nat)
      requires Core(Null) && g in st.free
      ensures g < pages.Length && pages[g].groupSize == st.free[g]
    {
      GroupFacts(st, pages[..], addrs, freeGroupLists, lists, links.nodes, freePagesCount, Null, g);
    }

    /** The body of allocate's search: removeGroup, splitGroup, addGroup of the remainder. */
    method Take(group: nat, count: nat) returns (r: Ptr)
      requires Valid() && group in st.free && 0 < count <= st.free[group]
      modifies this`freeGroupLists, this`freePagesCount, this`st, this`lists, links, pages
      ensures Valid() && Tiled(old(st))
      ensures r == At(group) && st == AllocateAt(old(st), group, count)
      ensures freePagesCount == old(freePagesCount) - count
    {
      hide Consistent, Tiled, Coalesced, Layout, IsStart, TagAt, OnlyTags, UsedAt, Stamped;
      ghost var p := st;
      FreeBound(st, pages[..], addrs, freeGroupLists, lists, links.nodes, freePagesCount, Null);
      AllocateAtKeeps(st, group, count);
      LayoutKept(regionsInfo, pageSize, addrs, p, AllocateAt(p, group, count));
      RemoveGroup(group);
      UsedGroupFacts(group);
      ghost var pg := pages[..];
      var allocatedGroup, remainingGroup := SplitGroup(pages, group, count);
      if remainingGroup.At? {
        SplitConsistent(st, pg, pages[..], addrs, freeGroupLists, lists, links.nodes, freePagesCount, group, count);
        st := Split(st, group, count);
        AddGroup(remainingGroup.addr);
      }
      FreeBound(st, pages[..], addrs, freeGroupLists, lists, links.nodes, freePagesCount, Null);
      return At(allocatedGroup);
    }

    lemma UsedGroupFacts(g: nat)
      requires Core(Null) && g in st.used
      ensures g < pages.Length && pages[g].groupSize == st.used[g] < PAGE_LIMIT
      ensures TagAt(pages[..], g, st.used[g])
    {
      assert IsStart(st, g);
      GroupFacts(st, pages[..], addrs, freeGroupLists, lists, links.nodes, freePagesCount, Null, g);
    }

    /** removeGroup of the free neighbour and joinGroup with it, as in both loops of release. */
    method AbsorbGroup(first: nat, second: nat, group: nat) returns (joined: nat)
      requires Core(Null) && Coalesced(st) && Layout(regionsInfo, pageSize, addrs, st)
      requires first != second && group in st.free && group in {first, second}
      requires (if group == first then second else first) in st.used
      requires second == End(st, first) && second !in st.borders
      modifies this`freeGroupLists, this`freePagesCount, this`st, this`lists, links, pages
      ensures Core(Null) && st == Absorb(old(st), first, second, group)
      ensures joined == first && joined in st.used
      ensures Coalesced(st) && Layout(regionsInfo, pageSize, addrs, st)
      ensures st.n == old(st).n && st.borders == old(st).borders
      ensures st.used - {joined} == old(st).used - {if group == first then second else first}
      ensures freePagesCount < old(freePagesCount)
    {
      hide Consistent, Tiled, Coalesced, Layout, IsStart, TagAt, OnlyTags, UsedAt, Stamped, Join;
      ghost var p := st;
      FreeBound(st, pages[..], addrs, freeGroupLists, lists, links.nodes, freePagesCount, Null);
      ghost var other := if group == first then second else first;
      AbsorbFits(regionsInfo, pageSize, addrs, st, first, second, group);
      AbsorbKeeps(st, first, second, group);
      LayoutKept(regionsInfo, pageSize, addrs, st, Absorb(st, first, second, group));
      RemoveGroup(group);
      UsedGroupFacts(first);
      UsedGroupFacts(second);
      ghost var pg := pages[..];
      joined := JoinGroup(pages, first, second);
      JoinConsistent(st, pg, pages[..], addrs, freeGroupLists, lists, links.nodes, freePagesCount, first, second);
      st := Join(st, first, second);
      FreeBound(st, pages[..], addrs, freeGroupLists, lists, links.nodes, freePagesCount, Null);
    }

    /** What release reads from the descriptors around the group at j. */
    lemma AboveFacts(j: nat)
      requires Core(Null) && Coalesced(st) && Layout(regionsInfo, pageSize, addrs, st) && IsStart(st, j)
      requires pages.Length == st.n
      ensures 1 <= pageSize <= Pow2(WORD) && j < pages.Length
      ensures j == 0 ==> JoinedAbove(st, j)
      ensures j > 0 ==>
        && ((Lookup(regionsInfo, PageFloor(pages[j].addr, pageSize), 0)
             != Lookup(regionsInfo, PageFloor(pages[j - 1].addr, pageSize), 0)) <==> j in st.borders)
        && (pages[j - 1].used ==> JoinedAbove(st, j))
        && (!pages[j - 1].used ==>
              && pages[j - 1].groupSize <= j
              && var f := j - pages[j - 1].groupSize; f in st.free && f < j && IsStart(st, f) && End(st, f) == j)
    {
      hide Consistent, Tiled, Coalesced, Layout, IsStart, Lookup, PageFloor, Pow2;
      FreeBound(st, pages[..], addrs, freeGroupLists, lists, links.nodes, freePagesCount, Null);
      TagsLeadDown(st, pages[..], addrs, freeGroupLists, lists, links.nodes, freePagesCount, j);
      Apart(st, j, j);
      AddressIsFloor(regionsInfo, pageSize, addrs, st, j);
      if j == 0 {
        ZeroIsBorder(st, j);
      }
      if j > 0 {
        var t := TagsLeadUp(st, pages[..], addrs, freeGroupLists, lists, links.nodes, freePagesCount, j);
        Apart(st, t, j);
        AddressIsFloor(regionsInfo, pageSize, addrs, st, j - 1);
        RegionsTellBorder(regionsInfo, pageSize, addrs, st, j - 1);
      }
    }

    lemma BelowFacts(j: nat)
      requires Core(Null) && Coalesced(st) && Layout(regionsInfo, pageSize, addrs, st) && j in st.used
      requires pages.Length == st.n
      ensures 1 <= pageSize <= Pow2(WORD) && j < pages.Length && IsStart(st, j)
      ensures var e := j + pages[j].groupSize;
        && j < e == End(st, j) <= pages.Length
        && (e == pages.Length ==> JoinedBelow(st, j))
        && (e < pages.Length ==>
              && ((Lookup(regionsInfo, PageFloor(pages[e - 1].addr, pageSize), 0)
                   != Lookup(regionsInfo, PageFloor(pages[e].addr, pageSize), 0)) <==> e in st.borders)
              && (pages[e].used ==> JoinedBelow(st, j))
              && (!pages[e].used ==> e in st.free))
    {
      hide Consistent, Tiled, Coalesced, Layout, IsStart, Lookup, PageFloor, Pow2;
      FreeBound(st, pages[..], addrs, freeGroupLists, lists, links.nodes, freePagesCount, Null);
      UsedIsStart(st, j);
      UsedGroupFacts(j);
      TagsLeadDown(st, pages[..], addrs, freeGroupLists, lists, links.nodes, freePagesCount, j);
      UsedGroupSize(st, j);
      Apart(st, j, j);
      var e := End(st, j);
      AddressIsFloor(regionsInfo, pageSize, addrs, st, e - 1);
      if e < st.n {
        AddressIsFloor(regionsInfo, pageSize, addrs, st, e);
        RegionsTellBorder(regionsInfo, pageSize, addrs, st, e - 1);
        StartIsFreeOrUsed(st, e);
      } else {
        NoGroupAtEnd(st, e);
      }
    }

    /** What holds between the two coalescing loops of release, where the group at joined is still used. */
    ghost predicate Coalescing(joined: nat)
      reads this, pages, links
    {
      && Core(Null) && Coalesced(st) && Layout(regionsInfo, pageSize, addrs, st)
      && joined in st.used && pagesCount == st.n == pages.Length
    }

    /** First loop of release: join with the free pages above the group. */
    method JoinAbove(group: nat) returns (joined: nat)
      requires Coalescing(group)
      modifies this`freeGroupLists, this`freePagesCount, this`st, this`lists, links, pages
      ensures Coalescing(joined) && JoinedAbove(st, joined)
      ensures st.used - {joined} == old(st).used - {group}
      ensures st.n == old(st).n && st.borders == old(st).borders
    {
      hide Consistent, Tiled, Coalesced, Layout, IsStart, JoinedAbove, Absorb;
      joined := group;
      while true
        invariant Coalescing(joined)
        invariant st.used - {joined} == old(st).used - {group}
        invariant st.n == old(st).n && st.borders == old(st).borders
        decreases joined
      {
        UsedIsStart(st, joined);
        AboveFacts(joined);
        var lastAbove := joined - 1;
        if !IsValidPage(lastAbove) {
          break;
        }
        var region := GetRegion(pages[joined].addr);
        var regionAbove := GetRegion(pages[lastAbove].addr);
        if region != regionAbove {
          AtBorder(st, joined);
          break;
        }
        if pages[lastAbove].used {
          break;
        }
        var firstAbove := lastAbove - pages[lastAbove].groupSize + 1;
        joined := AbsorbGroup(firstAbove, joined, firstAbove);
      }
    }

    /** Second loop of release: join with the free pages below the group. */
    method JoinBelow(group: nat) returns (joined: nat)
      requires Coalescing(group) && JoinedAbove(st, group)
      modifies this`freeGroupLists, this`freePagesCount, this`st, this`lists, links, pages
      ensures joined == group && Coalescing(joined) && JoinedAbove(st, joined)
      ensures IsStart(st, joined) && JoinedBelow(st, joined)
      ensures st.used - {joined} == old(st).used - {group}
      ensures st.n == old(st).n && st.borders == old(st).borders
    {
      hide Consistent, Tiled, Coalesced, Layout, IsStart, JoinedAbove, JoinedBelow, Absorb, Lookup, PageFloor, Pow2,
           Separated, TagAt;
      joined := group;
      while true
        invariant joined == group && Coalescing(joined) && JoinedAbove(st, joined)
        invariant st.used - {joined} == old(st).used - {group}
        invariant st.n == old(st).n && st.borders == old(st).borders
        decreases freePagesCount
      {
        BelowFacts(joined);
        var lastJoined := joined + pages[joined].groupSize - 1;
        var firstBelow := lastJoined + 1;
        if !IsValidPage(firstBelow) {
          break;
        }
        var region := GetRegion(pages[lastJoined].addr);
        var regionBelow := GetRegion(pages[firstBelow].addr);
        if region != regionBelow {
          AtBorderBelow(st, joined);
          break;
        }
        if pages[firstBelow].used {
          break;
        }
        FreeBound(st, pages[..], addrs, freeGroupLists, lists, links.nodes, freePagesCount, Null);
        AbsorbedBelow(st, joined, firstBelow);
        joined := AbsorbGroup(joined, firstBelow, firstBelow);
      }
    }

    /** release: the group is joined with its free neighbours and put back into the buckets. */
    method Release(group: Ptr)
      requires Valid()
      requires group.At? ==> group.addr in st.used && group.addr != regionsInfo[descRegionIdx].firstPage
      modifies this`freeGroupLists, this`freePagesCount, this`st, this`lists, links, pages
      ensures Valid()
      ensures group.Null? ==> st == old(st)
      ensures group.At? ==> st.used == old(st).used - {group.addr}
      ensures st.n == old(st).n && st.borders == old(st).borders
    {
      hide Consistent, Tiled, Coalesced, Layout, Reserved, IsStart, JoinedAbove, JoinedBelow, Unclaim;
      if group.Null? {
        return;
      }
      ghost var p := st;
      var joined := JoinAbove(group.addr);
      joined := JoinBelow(joined);
      FreeBound(st, pages[..], addrs, freeGroupLists, lists, links.nodes, freePagesCount, Null);
      FinalUnclaim(st, joined);
      LayoutKept(regionsInfo, pageSize, addrs, st, Unclaim(st, joined));
      PendingIgnored(st, pages[..], addrs, freeGroupLists, lists, links.nodes, freePagesCount, joined);
      AddGroup(joined);
      ReservedKept(regionsInfo, descRegionIdx, descPagesCount, p, st, group.addr);
    }

    /** getPage: the page that contains an address, or nullptr if no page of any region does. */
    method GetPage(addr: nat) returns (r: Ptr)
      requires Valid() && addr < Pow2(WORD)
      ensures r.At? ==> r.addr < pages.Length && pages[r.addr].addr <= addr < pages[r.addr].addr + pageSize
      ensures r.Null? ==> forall p | 0 <= p < pages.Length :: !(pages[p].addr <= addr < pages[p].addr + pageSize)
    {
      hide Consistent, Coalesced, Reserved, Pow2, PageFloor, Lookup, Separated;
      PageSizeFits(regionsInfo, pageSize, addrs, st);
      var alignedAddr := PageFloor(addr, pageSize);
      FloorOnce(regionsInfo, pageSize, addrs, st, addr);
      var region := GetRegion(alignedAddr);
      PageAddresses();
      if region.None? {
        forall p | 0 <= p < pages.Length ensures !(pages[p].addr <= addr < pages[p].addr + pageSize) {
          ContainedPage(regionsInfo, pageSize, addrs, st, addr, p);
        }
        return Null;
      }
      var pageRegion := region.value;
      LookupHit(regionsInfo, alignedAddr, 0);
      RegionInArray(regionsInfo, |addrs|, pageRegion);
      var page := regionsInfo[pageRegion].firstPage;
      while page <= regionsInfo[pageRegion].lastPage
        invariant regionsInfo[pageRegion].firstPage <= page <= regionsInfo[pageRegion].lastPage + 1
        invariant forall q | regionsInfo[pageRegion].firstPage <= q < page :: pages[q].addr != alignedAddr
      {
        if pages[page].addr == alignedAddr {
          return At(page);
        }
        page := page + 1;
      }
      forall p | 0 <= p < pages.Length ensures !(pages[p].addr <= addr < pages[p].addr + pageSize) {
        ContainedPage(regionsInfo, pageSize, addrs, st, addr, p);
      }
      return Null;
    }

    lemma PageAddresses()
      requires Valid()
      ensures pages.Length == |addrs| && forall p | 0 <= p < pages.Length :: pages[p].addr == addrs[p]
    {
    }

    /** The inner loop of init: page->init(), setAddress for each page of one region. */
    method InitPages(first: nat, alignedStart: nat, alignedEnd: nat, ghost count: nat)
      requires pageSize > 0 && alignedEnd == PageAddress(alignedStart, count, pageSize)
      requires first + count <= pages.Length
      modifies pages, links
      ensures FreshPages(pages[..], first, count, alignedStart, pageSize)
      ensures forall q | 0 <= q < pages.Length && (q < first || first + count <= q) :: pages[q] == old(pages[q])
      ensures forall q :: q in links.nodes <==> q in old(links.nodes) || first <= q < first + count
      ensures forall q | q in links.nodes :: links.nodes[q] == if first <= q < first + count then UNLINKED
        else old(links.nodes)[q]
    {
      hide PageAddress;
      var page := first;
      var addr := alignedStart;
      ghost var k: nat := 0;
      PageAddressStep(alignedStart, k, count, pageSize);
      while addr != alignedEnd
        invariant k <= count && page == first + k && addr == PageAddress(alignedStart, k, pageSize)
        invariant FreshPages(pages[..], first, k, alignedStart, pageSize)
        invariant forall q | 0 <= q < pages.Length && (q < first || first + k <= q) :: pages[q] == old(pages[q])
        invariant forall q :: q in links.nodes <==> q in old(links.nodes) || first <= q < first + k
        invariant forall q | q in links.nodes :: links.nodes[q] == if first <= q < first + k then UNLINKED
          else old(links.nodes)[q]
        decreases count - k
      {
        ghost var pg := pages[..];
        links.InitListNode(page);
        pages[page] := Page(addr, 0, false);
        assert pages[..] == pg[page := Page(addr, 0, false)];
        FreshPageAdded(pg, first, k, alignedStart, pageSize);
        PageAddressStep(alignedStart, k, count, pageSize);
        PageAddressStep(alignedStart, k + 1, count, pageSize);
        k := k + 1;
        addr := addr + pageSize;
        page := page + 1;
      }
      PageAddressStep(alignedStart, k, count, pageSize);
    }

    /** reserveDescPages: marks the pages that hold the descriptor array. */
    method ReserveDescPages(ghost count: nat, ghost start: nat) returns (reservedCount: nat)
      requires descRegionIdx < |regionsInfo| && pages.Length == pagesCount > 0
      requires var r := regionsInfo[descRegionIdx];
        r.alignedStart == start && count == r.lastPage + 1 - r.firstPage && r.firstPage <= r.lastPage < pagesCount
      requires regionsInfo[descRegionIdx].alignedStart == pages[regionsInfo[descRegionIdx].firstPage].addr
      requires forall q {:trigger pages[q]}
        | regionsInfo[descRegionIdx].firstPage <= q <= regionsInfo[descRegionIdx].lastPage ::
        pages[q].addr == PageAddress(start, q - regionsInfo[descRegionIdx].firstPage, pageSize)
      requires PageAddress(0, count, pageSize) >= ArrayBytes(pagesCount)
      modifies pages
      ensures 1 <= reservedCount <= count && Covers(reservedCount, pageSize, ArrayBytes(pagesCount))
      ensures JustCovers(reservedCount, pageSize, pagesCount)
      ensures Marked(old(pages[..]), pages[..], regionsInfo[descRegionIdx].firstPage,
                     regionsInfo[descRegionIdx].firstPage + reservedCount, true)
    {
      hide PageAddress, Covers, JustCovers;
      reservedCount := 0;
      var descRegion := regionsInfo[descRegionIdx];
      var descEnd := descRegion.alignedStart + ArrayBytes(pagesCount);
      var page := descRegion.firstPage;
      while page <= pagesCount - 1
        invariant page == descRegion.firstPage + reservedCount <= descRegion.lastPage
        invariant Marked(old(pages[..]), pages[..], descRegion.firstPage, descRegion.firstPage + reservedCount, true)
        invariant reservedCount > 0 ==> PageAddress(start, reservedCount - 1, pageSize) < descEnd
        decreases pagesCount - page
      {
        assert pages[page].addr == old(pages[page]).addr == PageAddress(start, reservedCount, pageSize);
        if pages[page].addr >= descEnd {
          break;
        }
        pages[page] := pages[page].(used := true);
        reservedCount := reservedCount + 1;
        if page == descRegion.lastPage {
          break;
        }
        page := page + 1;
      }
      CoversEnd(reservedCount, count, start, pageSize, ArrayBytes(pagesCount));
      CoversExactly(reservedCount, pageSize, pagesCount);
    }

    /** The state of init when the first i regions are set up. */
    ghost predicate InitState(i: nat, table: seq<RegionInfo>)
      reads this, pages, links
    {
      && i <= |regionsInfo| && SameTable(regionsInfo, table)
      && Consistent(st, pages[..], addrs, freeGroupLists, lists, links.nodes, freePagesCount, Null) && Coalesced(st)
      && |addrs| == st.n && Chained(regionsInfo[..i], st.n) && Addressed(regionsInfo[..i], pageSize, addrs)
      && st.borders == Borders(regionsInfo[..i]) && st.n == TotalPages(table[..i])
      && pagesCount == pages.Length == TotalPages(table)
      && Aligned(table, pageSize) && Separated(table)
      && descRegionIdx < |table| && Fits(table[descRegionIdx], pagesCount)
      && (if descRegionIdx < i
          then st.used == map[regionsInfo[descRegionIdx].firstPage := descPagesCount]
               && Covers(descPagesCount, pageSize, ArrayBytes(pagesCount))
          else st.used == map[])
    }

    /** First half of a turn of init's loop over the regions: the descriptors of region i, tagged as one group. */
    method InitDescriptors(i: nat, page: nat, ghost table: seq<RegionInfo>)
      requires InitState(i, table) && i < |regionsInfo| && page == st.n
      modifies this`regionsInfo, this`st, this`addrs, links, pages
      ensures SameTable(regionsInfo, table) && |regionsInfo| == |old(regionsInfo)|
      ensures regionsInfo == old(regionsInfo)[i := regionsInfo[i]]
      ensures regionsInfo[i].firstPage == page && regionsInfo[i].lastPage == page + regionsInfo[i].pageCount - 1
      ensures 0 < regionsInfo[i].pageCount < PAGE_LIMIT && page + regionsInfo[i].pageCount <= pages.Length
      ensures st == Extended(old(st), regionsInfo[i].pageCount)
      ensures Core(At(page))
      ensures UsedAt(pages[..], page, regionsInfo[i].pageCount, false)
      ensures |addrs| == st.n && Chained(regionsInfo[..i + 1], st.n) && Addressed(regionsInfo[..i + 1], pageSize, addrs)
      ensures st.borders == Borders(regionsInfo[..i + 1]) && st.n == TotalPages(table[..i + 1])
      ensures forall q {:trigger pages[q]} | page <= q < page + regionsInfo[i].pageCount ::
        pages[q].addr == PageAddress(regionsInfo[i].alignedStart, q - page, pageSize)
    {
      hide Consistent, Coalesced, Chained, Addressed, Borders, TotalPages, Aligned, Separated, Fits, Covers,
           ArrayBytes, Extended, PageAddress, AddressRun, TagAt, UsedAt, FreshPages, Tiled;
      var region := regionsInfo[i];
      var lastPage := page + region.pageCount - 1;
      RegionRoom(regionsInfo, table, pageSize, i, pagesCount);
      FreeBound(st, pages[..], addrs, freeGroupLists, lists, links.nodes, freePagesCount, Null);
      ghost var c := region.pageCount;
      ghost var pg, nodes, rs := pages[..], links.nodes, regionsInfo;
      regionsInfo := regionsInfo[i := region.(firstPage := page, lastPage := lastPage)];
      InitPages(page, region.alignedStart, region.alignedEnd, c);
      ghost var pg1 := pages[..];
      InitGroup(pages, page, region.pageCount);
      FreshTagged(pg, pg1, pages[..], page, c, region.alignedStart, pageSize);
      ExtendedConsistent(st, pg, pages[..], addrs, freeGroupLists, lists, nodes, links.nodes, freePagesCount, c,
          region.alignedStart, pageSize);
      ChainExtended(rs, st.n, i, regionsInfo[i], pageSize, addrs);
      ExtendedFields(st, c);
      addrs := addrs + AddressRun(region.alignedStart, c, pageSize);
      st := Extended(st, c);
    }

    /** One turn of init's loop over the regions. */
    method InitRegion(i: nat, page: nat, ghost table: seq<RegionInfo>) returns (next: nat)
      requires InitState(i, table) && i < |regionsInfo| && page == st.n
      modifies this`regionsInfo, this`descPagesCount, this`freeGroupLists, this`freePagesCount,
               this`st, this`lists, this`addrs, links, pages
      ensures InitState(i + 1, table) && next == st.n && |regionsInfo| == |old(regionsInfo)|
    {
      hide Consistent, Coalesced, Chained, Addressed, Borders, TotalPages, Aligned, Separated, Covers, ArrayBytes,
           Extended, PageAddress, Tiled, SameTable, Split, Unclaim, TagAt, UsedAt;
      ghost var p := st;
      FreeBound(st, pages[..], addrs, freeGroupLists, lists, links.nodes, freePagesCount, Null);
      InitDescriptors(i, page, table);
      ghost var c := regionsInfo[i].pageCount;
      var group := At(page);
      ExtendedFields(p, c);
      RegionAddedFree(p, c);
      if i == descRegionIdx {
        DescRegionFits(regionsInfo, table, pageSize, i, pagesCount);
        group := SplitReserved(page, c);
        if descPagesCount < c {
          RegionAddedReserved(p, c, descPagesCount);
        } else {
          RegionAllReserved(p, c);
        }
      }
      if group.At? {
        AddGroup(group.addr);
      }
      next := page + regionsInfo[i].pageCount;
    }

    /** The branch of init for the descriptor region: reserveDescPages and splitGroup. */
    method SplitReserved(page: nat, ghost c: nat) returns (rest: Ptr)
      requires Core(At(page)) && page in st.used && st.used[page] == c && st.n == page + c
      requires UsedAt(pages[..], page, c, false)
      requires descRegionIdx < |regionsInfo| && pages.Length == pagesCount
      requires regionsInfo[descRegionIdx].firstPage == page && regionsInfo[descRegionIdx].lastPage == page + c - 1
      requires forall q {:trigger pages[q]} | page <= q < page + c ::
        pages[q].addr == PageAddress(regionsInfo[descRegionIdx].alignedStart, q - page, pageSize)
      requires PageAddress(0, c, pageSize) >= ArrayBytes(pagesCount)
      modifies this`descPagesCount, this`st, pages
      ensures 1 <= descPagesCount <= c && Covers(descPagesCount, pageSize, ArrayBytes(pagesCount))
      ensures old(st).used[page] == c && st == Split(old(st), page, descPagesCount)
      ensures rest == if descPagesCount < c then At(page + descPagesCount) else Null
      ensures Core(rest)
    {
      hide Consistent, Covers, JustCovers, TagAt, UsedAt, Split;
      PendingGroupFacts(page);
      PageAddressStep(regionsInfo[descRegionIdx].alignedStart, 0, 0, pageSize);
      ghost var pg := pages[..];
      descPagesCount := ReserveDescPages(c, regionsInfo[descRegionIdx].alignedStart);
      MarkedTags(pg, pages[..], page, c, descPagesCount);
      ghost var pg1 := pages[..];
      var first, second := SplitGroup(pages, page, descPagesCount);
      SplitMarked(pg, pg1, pages[..], page, c, descPagesCount);
      ReservedConsistent(st, pg, pages[..], addrs, freeGroupLists, lists, links.nodes, freePagesCount, page,
          descPagesCount);
      rest := second;
      st := Split(st, page, descPagesCount);
    }

    lemma PendingGroupFacts(g: nat)
      requires Core(At(g)) && g in st.used
      ensures st.used[g] >= 1 && g + st.used[g] <= st.n <= pages.Length
      ensures pages[g].groupSize == st.used[g] < PAGE_LIMIT
      ensures TagAt(pages[..], g, st.used[g])
    {
      assert IsStart(st, g);
      GroupFacts(st, pages[..], addrs, freeGroupLists, lists, links.nodes, freePagesCount, At(g), g);
    }

    /** countPages. */
    method CountPages() returns (count: nat)
      ensures count == TotalPages(regionsInfo)
    {
      count := 0;
      var i := 0;
      assert regionsInfo[..0] == [];
      while i < |regionsInfo|
        invariant i <= |regionsInfo| && count == TotalPages(regionsInfo[..i])
      {
        TotalPagesPrefix(regionsInfo, i);
        count := count + regionsInfo[i].pageCount;
        i := i + 1;
      }
      assert regionsInfo[..i] == regionsInfo;
    }

    /** getStats. Both accumulations start from 0U, so they are kept in 32 bits. */
    method GetStats() returns (stats: PageStats)
      requires Valid()
      ensures stats.totalMemorySize == Truncate(TotalSize(regionsInfo), UINT)
      ensures stats.effectiveMemorySize == Truncate(Times(st.n, pageSize), UINT)
      ensures stats.userMemorySize == Truncate(stats.effectiveMemorySize - Times(descPagesCount, pageSize), WORD)
      ensures stats.freeMemorySize == Truncate(Times(Sum(st.free), pageSize), WORD)
      ensures stats.pageSize == pageSize && stats.totalPagesCount == st.n
      ensures stats.reservedPagesCount == descPagesCount && stats.freePagesCount == Sum(st.free)
    {
      hide Truncate, Times, Consistent, Layout, Coalesced, TotalSize, TotalAligned, Reserved, Pow2;
      FreeBound(st, pages[..], addrs, freeGroupLists, lists, links.nodes, freePagesCount, Null);
      LayoutTotals(regionsInfo, pageSize, addrs, st);
      NothingSummed(regionsInfo);
      var total, effective := 0, 0;
      var i := 0;
      while i < |regionsInfo|
        invariant i <= |regionsInfo| && total == Truncate(TotalSize(regionsInfo[..i]), UINT)
      {
        TotalsPrefix(regionsInfo, i);
        TruncateSum(TotalSize(regionsInfo[..i]), regionsInfo[i].size, UINT);
        total := Truncate(total + regionsInfo[i].size, UINT);
        i := i + 1;
      }
      assert regionsInfo[..i] == regionsInfo;
      i := 0;
      while i < |regionsInfo|
        invariant i <= |regionsInfo| && effective == Truncate(TotalAligned(regionsInfo[..i]), UINT)
      {
        TotalsPrefix(regionsInfo, i);
        TruncateSum(TotalAligned(regionsInfo[..i]), regionsInfo[i].alignedSize, UINT);
        effective := Truncate(effective + regionsInfo[i].alignedSize, UINT);
        i := i + 1;
      }
      assert regionsInfo[..i] == regionsInfo;
      stats := PageStats(total, effective, Truncate(effective - Times(descPagesCount, pageSize), WORD),
                         Truncate(Times(freePagesCount, pageSize), WORD), pageSize, pagesCount, descPagesCount,
                             freePagesCount);
    }

    /** The first loop of init: the table of the regions that hold a page. */
    method CollectRegions(regions: seq<Region>, pageSize: nat) returns (ok: bool)
      requires PowerOf2(pageSize) && Terminated(regions)
      requires forall i | 0 <= i < EntryCount(regions) :: Representable(regions[i])
      requires regionsInfo == []
      modifies this`regionsInfo
      ensures ok <==> EntryCount(regions) <= MAX_REGIONS
      ensures ok ==> regionsInfo == Table(regions, pageSize, EntryCount(regions))
    {
      hide PowerOf2, Representable, HoldsPage, Trimmed;
      var i := 0;
      PowerPositive(pageSize);
      while regions[i].size != 0
        invariant 0 <= i <= EntryCount(regions) && i <= MAX_REGIONS
        invariant regionsInfo == Table(regions, pageSize, i)
        decreases EntryCount(regions) - i
      {
        if i == MAX_REGIONS {
          return false;
        }
        var valid, regionInfo := InitRegionInfo(regions[i], pageSize);
        if valid {
          TrimmedUnique(regionInfo, Trim(regions[i], pageSize), regions[i], pageSize);
          regionsInfo := regionsInfo + [regionInfo];
        }
        i := i + 1;
      }
      return true;
    }

    method Clear()
      modifies this
      ensures regionsInfo == [] && pagesCount == freePagesCount == 0
      ensures fresh(pages) && fresh(links) && links.nodes == map[]
      ensures freeGroupLists == seq(GROUP_LISTS, _ => Null)
    {
      regionsInfo, pageSize, descRegionIdx, descPagesCount := [], 0, 0, 0;
      pages := new Page[0];
      links := new ListNodes();
      freeGroupLists := seq(GROUP_LISTS, _ => Null);
      pagesCount, freePagesCount := 0, 0;
    }

    /** init: succeeds exactly for a valid page size and at most eight regions, one of which holds a page. */
    method Init(regions: seq<Region>, pageSize: nat) returns (ok: bool)
      requires Terminated(regions) && pageSize < Pow2(WORD)
      requires forall i | 0 <= i < EntryCount(regions) :: Representable(regions[i])
      requires IsValidPageSize(pageSize) && EntryCount(regions) <= MAX_REGIONS ==>
        PowerOf2(pageSize) && SoundTable(Table(regions, pageSize, EntryCount(regions)))
      modifies this
      ensures ok <==> pageSize > 0 && IsValidPageSize(pageSize) && EntryCount(regions) <= MAX_REGIONS
                      && AnyPage(regions, pageSize, EntryCount(regions))
      ensures fresh(pages) && fresh(links)
      ensures ok ==>
        && Valid() && this.pageSize == pageSize && descRegionIdx < |regionsInfo|
        && PowerOf2(pageSize) && SameTable(regionsInfo, Table(regions, pageSize, EntryCount(regions)))
        && JustCovers(descPagesCount, pageSize, pagesCount)
        && InitialPartition(st, regionsInfo[descRegionIdx].firstPage, descPagesCount)
        && Fits(regionsInfo[descRegionIdx], pagesCount)
        && forall j | 0 <= j < |regionsInfo| && Fits(regionsInfo[j], pagesCount) ::
             regionsInfo[descRegionIdx].alignedSize <= regionsInfo[j].alignedSize
    {
      hide PowerOf2, Representable, HoldsPage, Trimmed, Table, SoundTable, Consistent, Coalesced, Tiled, Aligned,
           Separated, Chained, Addressed, Covers, ArrayBytes, Fits, AnyPage, TotalPages, IsPowerOf2, Pow2, Borders,
           JustCovers;
      Clear();
      IsPowerOf2Correct(pageSize);
      if !IsValidPageSize(pageSize) {
        return false;
      }
      ok := CollectRegions(regions, pageSize);
      if !ok {
        return false;
      }
      TableNonEmpty(regions, pageSize, EntryCount(regions));
      pagesCount := CountPages();
      if pagesCount == 0 {
        return false;
      }
      this.pageSize := pageSize;
      TableSound(regions, pageSize, EntryCount(regions));
      SetupRegions(regionsInfo);
      CoversExactly(descPagesCount, pageSize, pagesCount);
      return true;
    }

    /** Second part of init: the descriptor array is placed and every region is set up. */
    method SetupRegions(ghost table: seq<RegionInfo>)
      requires table == regionsInfo != [] && pagesCount == TotalPages(table) && freePagesCount == 0
      requires PowerOf2(pageSize) && pageSize < Pow2(WORD)
      requires SoundTable(table) && Aligned(table, pageSize) && Separated(table)
      requires freeGroupLists == seq(GROUP_LISTS, _ => Null) && links.nodes == map[]
      modifies this, links
      ensures Valid() && pageSize == old(pageSize) && fresh(pages) && links == old(links)
      ensures SameTable(regionsInfo, table)
      ensures Covers(descPagesCount, pageSize, ArrayBytes(pagesCount))
      ensures InitialPartition(st, regionsInfo[descRegionIdx].firstPage, descPagesCount)
      ensures Fits(regionsInfo[descRegionIdx], pagesCount)
      ensures forall j | 0 <= j < |regionsInfo| && Fits(regionsInfo[j], pagesCount) ::
        regionsInfo[descRegionIdx].alignedSize <= regionsInfo[j].alignedSize
    {
      hide Chosen, PowerOf2, SoundTable, Consistent, Coalesced, Tiled, Aligned, Separated, Chained, Addressed, Covers,
           ArrayBytes, Fits, TotalPages, Pow2, Borders;
      descRegionIdx := ChooseDescRegion(regionsInfo, pagesCount);
      pages := new Page[pagesCount];
      FirstFits(table);
      st, addrs, lists := Pages(0, {}, map[], map[]), [], seq(GROUP_LISTS, _ => []);
      EmptyConsistent(st, pages[..]);
      NothingStarted(regionsInfo, pageSize);
      SetupEach(table);
      InitDone(table);
    }

    /** The second loop of init. */
    method SetupEach(ghost table: seq<RegionInfo>)
      requires InitState(0, table) && |regionsInfo| == |table| && st.n == 0
      modifies this`regionsInfo, this`descPagesCount, this`freeGroupLists, this`freePagesCount,
               this`st, this`lists, this`addrs, links, pages
      ensures InitState(|regionsInfo|, table) && |regionsInfo| == |table|
    {
      hide InitState;
      var page := 0;
      var i := 0;
      while i < |regionsInfo|
        invariant i <= |regionsInfo| == |table| && InitState(i, table) && page == st.n
      {
        page := InitRegion(i, page, table);
        i := i + 1;
      }
    }

    lemma InitDone(table: seq<RegionInfo>)
      requires InitState(|regionsInfo|, table) && PowerOf2(pageSize) && pageSize < Pow2(WORD)
      requires forall j | 0 <= j < |table|
        && Fits(table[j], pagesCount) :: table[descRegionIdx].alignedSize <= table[j].alignedSize
      ensures Valid() && InitialPartition(st, regionsInfo[descRegionIdx].firstPage, descPagesCount)
      ensures Fits(regionsInfo[descRegionIdx], pagesCount) && Covers(descPagesCount, pageSize, ArrayBytes(pagesCount))
      ensures forall j | 0 <= j < |regionsInfo| && Fits(regionsInfo[j], pagesCount) ::
        regionsInfo[descRegionIdx].alignedSize <= regionsInfo[j].alignedSize
    {
      hide Consistent, Chained, Addressed, Borders, Coalesced, Tiled, Aligned, Separated, Covers, ArrayBytes,
           TotalPages, Fits, SameTable;
      SameTableLength(regionsInfo, table);
      assert regionsInfo[..|regionsInfo|] == regionsInfo && table[..|table|] == table;
      TableFacts(regionsInfo, table, pagesCount, descRegionIdx, pageSize);
      FreeBound(st, pages[..], addrs, freeGroupLists, lists, links.nodes, freePagesCount, Null);
    }
  }
}
