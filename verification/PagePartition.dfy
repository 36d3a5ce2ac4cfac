/** The abstract state of the page allocator: the pages 0..n are tiled by groups, each free or used,
    and no group crosses a border (the first page of a region). */
module PagePartition {
  import opened Sums

  datatype Pages = Pages(n: nat, borders: set<nat>, free: map<nat, nat>, used: map<nat, nat>)

  /** A group starts at page s. */
  ghost predicate IsStart(p: Pages, s: nat)
  {
    s in p.free || s in p.used
  }

  ghost function Size(p: Pages, s: nat): nat
    requires IsStart(p, s)
  {
    if s in p.free then p.free[s] else p.used[s]
  }

  /** The page behind the group at s. */
  ghost function End(p: Pages, s: nat): nat
    requires IsStart(p, s)
  {
    s + Size(p, s)
  }

  /** The groups tile the pages exactly and respect the borders. */
  ghost predicate Tiled(p: Pages)
  {
    && p.free.Keys !! p.used.Keys
    && (p.n > 0 ==> 0 in p.borders)
    && (forall b | b in p.borders :: IsStart(p, b))
    && (forall s: nat {:trigger End(p, s)} | IsStart(p, s) :: s < End(p, s) <= p.n)
    && (forall s: nat {:trigger End(p, s)} | IsStart(p, s) && End(p, s) < p.n :: IsStart(p, End(p, s)))
    && (forall s: nat, t: nat {:trigger End(p, s), IsStart(p, t)} | IsStart(p, s) && IsStart(p, t)
       && s < t :: End(p, s) <= t)
  }

  lemma Apart(p: Pages, s: nat, t: nat)
    requires Tiled(p) && IsStart(p, s) && IsStart(p, t)
    ensures s < End(p, s) <= p.n && t < End(p, t) <= p.n
    ensures s < t ==> End(p, s) <= t
    ensures t < s ==> End(p, t) <= s
  {
  }

  /** No two neighbouring groups of one region are both free. */
  ghost predicate Coalesced(p: Pages)
  {
    forall s {:trigger End(p, s)} | s in p.free && End(p, s) in p.free :: End(p, s) in p.borders
  }

  // ----- the steps of allocate and release

  /** removeGroup: the free group at s becomes used. */
  ghost function Claim(p: Pages, s: nat): Pages
    requires s in p.free
  {
    p.(free := p.free - {s}, used := p.used[s := p.free[s]])
  }

  /** addGroup: the used group at s becomes free. */
  ghost function Unclaim(p: Pages, s: nat): Pages
    requires s in p.used
  {
    p.(free := p.free[s := p.used[s]], used := p.used - {s})
  }

  /** splitGroup: the used group at s keeps k pages, the rest becomes a group of its own. */
  ghost function Split(p: Pages, s: nat, k: nat): Pages
    requires s in p.used && 0 < k <= p.used[s]
  {
    if k == p.used[s] then p else p.(used := p.used[s := k][s + k := p.used[s] - k])
  }

  /** joinGroup: the used groups at a and b become one. */
  ghost function Join(p: Pages, a: nat, b: nat): Pages
    requires a in p.used && b in p.used && a != b
  {
    p.(used := (p.used - {b})[a := p.used[a] + p.used[b]])
  }

  lemma ClaimKeeps(p: Pages, s: nat)
    requires Tiled(p) && s in p.free
    ensures Tiled(Claim(p, s))
    ensures Coalesced(p) ==> Coalesced(Claim(p, s))
    ensures Sum(Claim(p, s).free) == Sum(p.free) - p.free[s]
  {
    var q := Claim(p, s);
    SameGroups(p, q);
    SumRemove(p.free, s);
    if Coalesced(p) {
      forall t | t in q.free && End(q, t) in q.free ensures End(q, t) in q.borders {
        assert End(q, t) == End(p, t);
      }
    }
  }

  lemma UnclaimKeeps(p: Pages, s: nat)
    requires Tiled(p) && s in p.used
    ensures Tiled(Unclaim(p, s))
    ensures Coalesced(p) && (End(p, s) in p.free ==> End(p, s) in p.borders)
      && (s !in p.borders ==> forall t | t in p.free :: End(p, t) != s)
      ==> Coalesced(Unclaim(p, s))
    ensures Sum(Unclaim(p, s).free) == Sum(p.free) + p.used[s]
  {
    var q := Unclaim(p, s);
    SameGroups(p, q);
    SumInsert(p.free, s, p.used[s]);
    if Coalesced(p) && (End(p, s) in p.free ==> End(p, s) in p.borders)
      && (s !in p.borders ==> forall t | t in p.free :: End(p, t) != s) {
      forall t | t in q.free && End(q, t) in q.free ensures End(q, t) in q.borders {
        assert End(q, t) == End(p, t);
        assert s < End(p, s);
      }
    }
  }

  /** Flipping the used bit of a group does not move any group border. */
  lemma SameGroups(p: Pages, q: Pages)
    requires Tiled(p) && q.n == p.n && q.borders == p.borders
    requires forall s: nat :: IsStart(p, s) <==> IsStart(q, s)
    requires forall s: nat | IsStart(p, s) :: Size(p, s) == Size(q, s)
    requires q.free.Keys !! q.used.Keys
    ensures Tiled(q)
  {
    forall s: nat | IsStart(q, s) ensures End(q, s) == End(p, s) { }
  }

  lemma SplitKeeps(p: Pages, s: nat, k: nat)
    requires Tiled(p) && s in p.used && 0 < k <= p.used[s]
    ensures Tiled(Split(p, s, k))
    ensures Coalesced(p) ==> Coalesced(Split(p, s, k))
    ensures k < p.used[s] ==> !IsStart(p, s + k) && s + k !in p.borders
  {
    var q := Split(p, s, k);
    if k < p.used[s] {
      var m := s + k;
      assert End(p, s) == s + p.used[s];
      assert !IsStart(p, m);
      assert m !in p.borders;
      assert End(q, s) == m && End(q, m) == End(p, s);
      forall t: nat | IsStart(p, t) && t != s ensures End(q, t) == End(p, t) { }
      forall t: nat, u: nat | IsStart(q, t) && IsStart(q, u) && t < u ensures End(q, t) <= u {
        Apart(p, if t == m then s else t, if u == m then s else u);
      }
      forall t: nat | IsStart(q, t) ensures t < End(q, t) <= q.n && (End(q, t) < q.n ==> IsStart(q, End(q, t))) {
        if t != s && t != m { assert End(q, t) == End(p, t); }
      }
    }
  }

  lemma JoinKeeps(p: Pages, a: nat, b: nat)
    requires Tiled(p) && a in p.used && b in p.used && b == End(p, a) && b !in p.borders
    ensures Tiled(Join(p, a, b))
    ensures Coalesced(p) ==> Coalesced(Join(p, a, b))
    ensures End(Join(p, a, b), a) == End(p, b)
  {
    var q := Join(p, a, b);
    assert a < b < End(p, b);
    assert End(q, a) == End(p, b);
    forall t: nat | IsStart(q, t) && t != a ensures IsStart(p, t) && End(q, t) == End(p, t) && End(q, t) != b {
      Apart(p, t, a);
    }
    forall t: nat, u: nat | IsStart(q, t) && IsStart(q, u) && t < u ensures End(q, t) <= u {
      assert IsStart(p, t) && IsStart(p, u);
      assert End(p, t) <= u;
      if t == a { assert u != b; assert b < u; assert End(p, b) <= u; }
    }
  }

  /** One turn of a coalescing loop: the free group g, one of the neighbours first and second, is
      merged into the other one. */
  ghost function Absorb(p: Pages, first: nat, second: nat, g: nat): Pages
    requires first != second && g in p.free && g in {first, second} && (if g == first then second else first) in p.used
  {
    Join(Claim(p, g), first, second)
  }

  lemma AbsorbKeeps(p: Pages, first: nat, second: nat, g: nat)
    requires Tiled(p) && Coalesced(p)
    requires first != second && g in p.free && g in {first, second} && (if g == first then second else first) in p.used
    requires second == End(p, first) && second !in p.borders
    ensures var q := Absorb(p, first, second, g);
      && Tiled(q) && Coalesced(q) && q.n == p.n && q.borders == p.borders
      && first in q.used && q.used[first] == Size(p, first) + Size(p, second)
      && q.used - {first} == p.used - {if g == first then second else first}
      && q.free == p.free - {g}
      && Sum(q.free) < Sum(p.free)
      && End(q, first) == End(p, second)
  {
    var c := Claim(p, g);
    ClaimKeeps(p, g);
    assert p.free.Keys !! p.used.Keys;
    assert End(c, first) == End(p, first) && End(c, second) == End(p, second);
    JoinKeeps(c, first, second);
    Apart(p, g, g);
  }

  /** allocate: k pages are cut off the free group at s, the rest stays free. */
  ghost function AllocateAt(p: Pages, s: nat, k: nat): Pages
    requires Tiled(p) && s in p.free && 0 < k <= p.free[s]
  {
    var q := Split(Claim(p, s), s, k);
    if k < p.free[s] then Unclaim(q, s + k) else q
  }

  lemma AllocateAtKeeps(p: Pages, s: nat, k: nat)
    requires Tiled(p) && Coalesced(p) && s in p.free && 0 < k <= p.free[s]
    ensures Tiled(AllocateAt(p, s, k)) && Coalesced(AllocateAt(p, s, k))
    ensures s !in p.used && AllocateAt(p, s, k).used == p.used[s := k]
    ensures k < p.free[s] ==> s + k in Split(Claim(p, s), s, k).used && s + k !in p.used
    ensures AllocateAt(p, s, k).n == p.n && AllocateAt(p, s, k).borders == p.borders
    ensures Sum(AllocateAt(p, s, k).free) == Sum(p.free) - k
  {
    var c := Claim(p, s);
    ClaimKeeps(p, s);
    SplitKeeps(c, s, k);
    var q := Split(c, s, k);
    assert s !in p.used;
    if k < p.free[s] {
      RemainderKeeps(p, s, k, q);
      assert Unclaim(q, s + k).used == p.used[s := k];
    } else {
      assert q.used == p.used[s := k];
    }
  }

  lemma RemainderKeeps(p: Pages, s: nat, k: nat, q: Pages)
    requires Coalesced(p) && s in p.free && 0 < k < p.free[s]
    requires q == Split(Claim(p, s), s, k) && Tiled(q) && Coalesced(q)
    requires !IsStart(p, s + k)
    ensures s + k in q.used && Tiled(Unclaim(q, s + k)) && Coalesced(Unclaim(q, s + k))
    ensures Sum(Unclaim(q, s + k).free) == Sum(q.free) + p.free[s] - k
  {
    var m := s + k;
    UnclaimKeeps(q, m);
    assert End(q, m) == End(p, s) && End(q, s) == m;
    forall t | t in q.free ensures End(q, t) != m {
      assert IsStart(q, s);
      Apart(q, s, t);
    }
  }

  // ----- the partition is determined by its used groups

  /** Every page lies in some group. */
  lemma {:induction false} Covered(p: Pages, x: nat) returns (s: nat)
    requires Tiled(p) && x < p.n
    ensures IsStart(p, s) && s <= x < End(p, s)
  {
    if x == 0 {
      s := 0;
      assert s < End(p, s);
    } else {
      s := Covered(p, x - 1);
      if x == End(p, s) {
        s := x;
        assert s < End(p, s);
      }
    }
  }

  /** The group of a region that ends where the group at s starts. */
  lemma Predecessor(p: Pages, s: nat) returns (t: nat)
    requires Tiled(p) && IsStart(p, s) && s > 0
    ensures IsStart(p, t) && End(p, t) == s
  {
    assert s < End(p, s);
    t := Covered(p, s - 1);
    assert End(p, t) <= s;
  }

  /** A free group away from the borders starts behind a used group. */
  lemma PredecessorUsed(p: Pages, s: nat) returns (u: nat)
    requires Tiled(p) && Coalesced(p) && s in p.free && s !in p.borders
    ensures u in p.used && End(p, u) == s
  {
    Apart(p, s, s);
    u := Predecessor(p, s);
  }

  /** Nothing starts or ends inside a group. */
  lemma Interior(p: Pages, t: nat, x: nat)
    requires Tiled(p) && IsStart(p, t) && t < x < End(p, t)
    ensures x !in p.borders && !IsStart(p, x)
    ensures forall u: nat | IsStart(p, u) :: End(p, u) != x
  {
    assert !IsStart(p, x);
    forall u: nat | IsStart(p, u) ensures End(p, u) != x {
      Apart(p, t, u);
    }
  }

  /** Two tilings with the same used groups have the same free groups. */
  lemma FreeStart(p: Pages, q: Pages, s: nat)
    requires Tiled(p) && Coalesced(p) && Tiled(q) && Coalesced(q)
    requires p.n == q.n && p.borders == q.borders && p.used == q.used
    requires s in p.free
    ensures s in q.free
  {
    Apart(p, s, s);
    var t := Covered(q, s);
    if t in q.used {
      assert IsStart(p, t);
      Apart(p, s, t);
    } else if t < s {
      Interior(q, t, s);
      var u := PredecessorUsed(p, s);
      assert IsStart(q, u);
    }
  }

  lemma FreeSize(p: Pages, q: Pages, s: nat)
    requires Tiled(p) && Coalesced(p) && Tiled(q) && Coalesced(q)
    requires p.n == q.n && p.borders == q.borders && p.used == q.used
    requires s in p.free && s in q.free
    ensures p.free[s] <= q.free[s]
  {
    var e := End(q, s);
    Apart(q, s, s);
    Apart(p, s, s);
    assert e == s + q.free[s] && End(p, s) == s + p.free[s];
    if e < End(p, s) {
      Interior(p, s, e);
    }
  }

  /** A tiled, maximally coalesced partition is a function of its used groups: whatever the order of
      allocations and releases was, the same live groups leave the same free groups. */
  lemma Canonical(p: Pages, q: Pages)
    requires Tiled(p) && Coalesced(p) && Tiled(q) && Coalesced(q)
    requires p.n == q.n && p.borders == q.borders && p.used == q.used
    ensures p == q
  {
    forall s ensures s in p.free <==> s in q.free {
      if s in p.free { FreeStart(p, q, s); }
      if s in q.free { FreeStart(q, p, s); }
    }
    forall s | s in p.free ensures p.free[s] == q.free[s] {
      FreeSize(p, q, s);
      FreeSize(q, p, s);
    }
    assert p.free == q.free;
  }

  /** Page-level round trip: releasing an allocated group at once restores the whole partition. */
  lemma RoundTrip(p: Pages, s: nat, k: nat, q: Pages)
    requires Tiled(p) && Coalesced(p) && s in p.free && 0 < k <= p.free[s]
    requires Tiled(q) && Coalesced(q) && q.n == p.n && q.borders == p.borders
    requires q.used == AllocateAt(p, s, k).used - {s}
    ensures q == p
  {
    AllocateAtKeeps(p, s, k);
    assert q.used == p.used;
    Canonical(p, q);
  }

  // ----- accounting

  /** The pages of a tiling split into free and used pages. */
  lemma {:induction false} PagesAddUp(p: Pages)
    requires Tiled(p)
    ensures Sum(p.free) + Sum(p.used) == p.n
    decreases p.n
  {
    if p.n == 0 {
      forall s: nat ensures s !in p.free.Keys && s !in p.used.Keys {
        if IsStart(p, s) { Apart(p, s, s); }
      }
      assert p.free.Keys == {} && p.used.Keys == {};
    } else {
      var t := Covered(p, p.n - 1);
      assert End(p, t) == p.n;
      var q := Pages(t, p.borders - {t}, p.free - {t}, p.used - {t});
      assert Tiled(q) by { DropLast(p, t, q); }
      PagesAddUp(q);
      if t in p.free {
        SumRemove(p.free, t);
        assert p.used - {t} == p.used;
      } else {
        SumRemove(p.used, t);
        assert p.free - {t} == p.free;
      }
    }
  }

  lemma DropLast(p: Pages, t: nat, q: Pages)
    requires Tiled(p) && IsStart(p, t) && End(p, t) == p.n
    requires q == Pages(t, p.borders - {t}, p.free - {t}, p.used - {t})
    ensures Tiled(q)
  {
    forall s: nat | IsStart(q, s) ensures IsStart(p, s) && End(q, s) == End(p, s) && s < End(p, s) <= t {
      assert s < End(p, s) <= p.n;
      Apart(p, s, t);
    }
    forall s: nat, u: nat | IsStart(q, s) && IsStart(q, u) && s < u ensures End(q, s) <= u {
      assert IsStart(p, s) && IsStart(p, u);
    }
    forall s: nat | IsStart(q, s) && End(q, s) < q.n ensures IsStart(q, End(q, s)) {
      assert IsStart(p, End(p, s));
    }
  }
}
