/** Page descriptors and the boundary tags of group.cpp. A Page* is an index into the descriptor
    array, so siblings are neighbouring indices. */
module Groups {
  import opened Bits
  import opened ListNode
  import opened Regions

  datatype Page = Page(addr: nat, groupSize: nat, used: bool)

  const GROUP_LISTS: nat := 20

  /** groupIdx: the size class of a group. */
  function GroupIdx(pageCount: nat): nat
  {
    if pageCount < 2 then 0
    else assert Log2(pageCount) >= 1; Log2(pageCount) - 1
  }

  /** The sizes of list i: below 4 pages for list 0, and 2^(i+1) up to 2^(i+2) - 1 pages for the others. */
  ghost predicate InSizeClass(pageCount: nat, i: nat)
  {
    if i == 0 then pageCount < 4 else Pow2(i + 1) <= pageCount < Pow2(i + 2)
  }

  /** What groupIdx computes: the one list whose sizes include the page count. */
  lemma GroupIdxClass(pageCount: nat, i: nat)
    ensures GroupIdx(pageCount) == i <==> InSizeClass(pageCount, i)
    ensures GroupIdx(0) == GroupIdx(1) == 0
    ensures pageCount >= 2 ==> Pow2(GroupIdx(pageCount) + 1) <= pageCount < Pow2(GroupIdx(pageCount) + 2)
  {
    assert Pow2(1) == 2 && Pow2(2) == 4;
    if pageCount >= 2 && InSizeClass(pageCount, i) {
      Log2Unique(pageCount, i + 1);
    }
  }

  /** Size classes grow with the size, and every size that fits the 21-bit tag has one of the lists. */
  lemma GroupIdxMonotone(a: nat, b: nat)
    requires a <= b
    ensures GroupIdx(a) <= GroupIdx(b)
  {
    if a >= 2 {
      Log2Mono(a, b);
    }
  }

  lemma GroupIdxInTable(size: nat)
    ensures size < PAGE_LIMIT ==> GroupIdx(size) < GROUP_LISTS
    ensures size >= PAGE_LIMIT ==> GroupIdx(size) >= GROUP_LISTS
  {
    assert Pow2(5) == 32;
    Pow2Add(5, 5);
    Pow2Add(10, 10);
    assert Pow2(20) == 1024 * 1024 && Pow2(21) == 2 * Pow2(20);
    Log2Unique(PAGE_LIMIT - 1, 20);
    Log2Unique(PAGE_LIMIT, 21);
    if size < PAGE_LIMIT {
      GroupIdxMonotone(size, PAGE_LIMIT - 1);
    } else {
      GroupIdxMonotone(PAGE_LIMIT, size);
    }
  }

  /** The boundary tags of a group of k pages at s: the size on its first and last page, 0 between. */
  ghost predicate TagAt(pg: seq<Page>, s: nat, k: nat)
  {
    && 1 <= k && s + k <= |pg|
    && pg[s].groupSize == k && pg[s + k - 1].groupSize == k
    && forall q | s < q < s + k - 1 :: pg[q].groupSize == 0
  }

  ghost predicate UsedAt(pg: seq<Page>, s: nat, k: nat, b: bool)
  {
    s + k <= |pg| && forall q | s <= q < s + k :: pg[q].used == b
  }

  /** pg' differs from pg only in the tags of the pages lo..hi. */
  ghost predicate OnlyTags(pg: seq<Page>, pg': seq<Page>, lo: nat, hi: nat)
  {
    && |pg| == |pg'|
    && forall q | 0 <= q < |pg| ::
         && pg'[q].addr == pg[q].addr && pg'[q].used == pg[q].used
         && (q < lo || hi <= q ==> pg'[q] == pg[q])
  }

  /** The 21-bit field of Page::PageFlags. */
  method SetGroupSize(pages: array<Page>, p: nat, groupSize: nat)
    requires p < pages.Length
    modifies pages
    ensures pages[..] == old(pages[..])[p := old(pages[p]).(groupSize := groupSize % PAGE_LIMIT)]
  {
    pages[p] := pages[p].(groupSize := groupSize % PAGE_LIMIT);
  }

  /** The tags of the pages s and e are set to v. */
  ghost function Stamped(pg: seq<Page>, s: nat, e: nat, v: nat): seq<Page>
    requires s < |pg| && e < |pg|
  {
    var f := pg[s := pg[s].(groupSize := v)];
    f[e := f[e].(groupSize := v)]
  }

  method InitGroup(pages: array<Page>, group: nat, groupSize: nat)
    requires 1 <= groupSize < PAGE_LIMIT && group + groupSize <= pages.Length
    modifies pages
    ensures pages[..] == Stamped(old(pages[..]), group, group + groupSize - 1, groupSize)
  {
    SetGroupSize(pages, group, groupSize);
    SetGroupSize(pages, group + groupSize - 1, groupSize);
  }

  method ClearGroup(pages: array<Page>, group: nat)
    requires group < pages.Length && pages[group].groupSize >= 1 && group + pages[group].groupSize <= pages.Length
    modifies pages
    ensures pages[..] == Stamped(old(pages[..]), group, group + old(pages[group].groupSize) - 1, 0)
  {
    var lastPage := group + pages[group].groupSize - 1;
    SetGroupSize(pages, group, 0);
    SetGroupSize(pages, lastPage, 0);
  }

  method SplitGroup(pages: array<Page>, group: nat, size: nat) returns (first: nat, second: Ptr)
    requires group < pages.Length && TagAt(pages[..], group, pages[group].groupSize)
    requires 0 < size <= pages[group].groupSize < PAGE_LIMIT
    modifies pages
    ensures first == group
    ensures TagAt(pages[..], group, size)
    ensures second == if size == old(pages[group].groupSize) then Null else At(group + size)
    ensures second.Null? ==> pages[..] == old(pages[..])
    ensures second.At? ==> TagAt(pages[..], group + size, old(pages[group].groupSize) - size)
    ensures OnlyTags(old(pages[..]), pages[..], group, group + old(pages[group].groupSize))
  {
    var groupSize := pages[group].groupSize;
    if size == groupSize {
      return group, Null;
    }
    var secondSize := groupSize - size;
    ClearGroup(pages, group);
    first := group;
    second := At(group + size);
    InitGroup(pages, first, size);
    InitGroup(pages, second.addr, secondSize);
  }

  method JoinGroup(pages: array<Page>, firstGroup: nat, secondGroup: nat) returns (joined: nat)
    requires firstGroup < secondGroup < pages.Length
    requires TagAt(pages[..], firstGroup, pages[firstGroup].groupSize)
    requires TagAt(pages[..], secondGroup, pages[secondGroup].groupSize)
    requires secondGroup == firstGroup + pages[firstGroup].groupSize
    requires pages[firstGroup].groupSize + pages[secondGroup].groupSize < PAGE_LIMIT
    modifies pages
    ensures joined == firstGroup
    ensures TagAt(pages[..], joined, old(pages[firstGroup].groupSize + pages[secondGroup].groupSize))
    ensures OnlyTags(old(pages[..]), pages[..], joined,
      joined + old(pages[firstGroup].groupSize + pages[secondGroup].groupSize))
  {
    var joinedSize := pages[firstGroup].groupSize + pages[secondGroup].groupSize;
    ClearGroup(pages, firstGroup);
    ClearGroup(pages, secondGroup);
    InitGroup(pages, firstGroup, joinedSize);
    return firstGroup;
  }
}
