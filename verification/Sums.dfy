/** Sums over finite maps: the quantities behind the allocator's counters. */
module Sums {

  ghost function Sum(m: map<nat, nat>): nat
    decreases |m|
  {
    if m == map[] then 0
    else
      var k :| k in m;
      m[k] + Sum(m - {k})
  }

  lemma SumEmpty()
    ensures Sum(map[]) == 0
  {
  }

  /** Removing a key makes a map smaller. */
  lemma FewerKeys(m: map<nat, nat>, k: nat)
    requires k in m
    ensures |m - {k}| == |m| - 1
  {
    assert (m - {k}).Keys == m.Keys - {k};
  }

  lemma {:induction false} SumRemove(m: map<nat, nat>, k: nat)
    requires k in m
    ensures Sum(m) == m[k] + Sum(m - {k})
    decreases |m|
  {
    var j :| j in m && Sum(m) == m[j] + Sum(m - {j});
    if j != k {
      SumRemove(m - {j}, k);
      SumRemove(m - {k}, j);
      assert m - {j} - {k} == m - {k} - {j};
    }
  }

  lemma SumInsert(m: map<nat, nat>, k: nat, v: nat)
    requires k !in m
    ensures Sum(m[k := v]) == Sum(m) + v
  {
    SumRemove(m[k := v], k);
    assert m[k := v] - {k} == m;
  }

  lemma SumUpdate(m: map<nat, nat>, k: nat, v: nat)
    requires k in m
    ensures Sum(m[k := v]) == Sum(m) - m[k] + v
  {
    SumRemove(m[k := v], k);
    SumRemove(m, k);
    assert m[k := v] - {k} == m - {k};
  }

  lemma {:induction false} SumPositive(m: map<nat, nat>)
    requires Sum(m) > 0
    ensures exists k :: k in m && m[k] > 0
    decreases |m|
  {
    var j :| j in m && Sum(m) == m[j] + Sum(m - {j});
    if m[j] == 0 {
      SumPositive(m - {j});
      var k :| k in m - {j} && (m - {j})[k] > 0;
      assert k in m && m[k] > 0;
    }
  }

  lemma SumAtLeast(m: map<nat, nat>, k: nat)
    requires k in m
    ensures Sum(m) >= m[k]
  {
    SumRemove(m, k);
  }

  /** k units of m bytes. */
  function Times(k: nat, m: nat): nat
  {
    k * m
  }

  lemma TimesMeaning(k: nat, m: nat)
    ensures Times(k, m) == k * m
  {
  }

  lemma TimesAdd(j: nat, k: nat, m: nat)
    ensures Times(j + k, m) == Times(j, m) + Times(k, m)
    ensures Times(0, m) == 0 && Times(1, m) == m
  {
  }

  lemma TimesMono(j: nat, k: nat, m: nat)
    requires j <= k
    ensures Times(j, m) <= Times(k, m)
  {
    assert (k - j) * m >= 0;
  }

  /** The part of a map with keys in s. */
  ghost function Only(m: map<nat, nat>, s: set<nat>): map<nat, nat>
  {
    map k | k in m && k in s :: m[k]
  }

  lemma {:induction false} SumSplit(m: map<nat, nat>, s: set<nat>)
    ensures Sum(m) == Sum(Only(m, s)) + Sum(m - s)
    decreases |m|
  {
    hide Sum, Only;
    if m == map[] {
      OnlyEmpty(s);
      SumEmpty();
    } else {
      var k :| k in m;
      FewerKeys(m, k);
      SumRemove(m, k);
      SumSplit(m - {k}, s);
      OnlyRemove(m, s, k);
      if k in s {
        SumRemove(Only(m, s), k);
      } else {
        SumRemove(m - s, k);
      }
    }
  }

  lemma OnlyEmpty(s: set<nat>)
    ensures Only(map[], s) == map[]
    ensures var m: map<nat, nat> := map[]; m - s == map[]
  {
  }

  lemma OnlyRemove(m: map<nat, nat>, s: set<nat>, k: nat)
    requires k in m
    ensures k in s ==>
      && k in Only(m, s) && Only(m, s)[k] == m[k]
      && Only(m - {k}, s) == Only(m, s) - {k} && m - {k} - s == m - s
    ensures k !in s ==> Only(m - {k}, s) == Only(m, s) && k in m - s && m - {k} - s == (m - s) - {k}
  {
  }

  lemma {:induction false} SumConst(m: map<nat, nat>, v: nat)
    requires forall k | k in m :: m[k] == v
    ensures Sum(m) == Times(|m|, v)
    decreases |m|
  {
    hide Times, Sum;
    TimesAdd(0, 0, v);
    SumEmpty();
    if m != map[] {
      var k :| k in m;
      FewerKeys(m, k);
      SumRemove(m, k);
      SumConst(m - {k}, v);
      TimesAdd(|m| - 1, 1, v);
    }
  }

  /** An injective map has as many values as keys. */
  lemma {:induction false} ImageCard(m: map<nat, nat>)
    requires forall a, b | a in m && b in m && a != b :: m[a] != m[b]
    ensures |m.Values| == |m|
    decreases |m|
  {
    if m == map[] {
      assert m.Values == {};
    } else {
      var a :| a in m;
      FewerKeys(m, a);
      ImageCard(m - {a});
      ValuesRemove(m, a);
      assert m[a] in m.Values;
    }
  }

  lemma ValuesRemove(m: map<nat, nat>, a: nat)
    requires a in m && forall b | b in m && b != a :: m[a] != m[b]
    ensures (m - {a}).Values == m.Values - {m[a]}
  {
    forall p ensures p in (m - {a}).Values <==> p in m.Values - {m[a]} {
      if p in m.Values - {m[a]} {
        var b :| b in m && m[b] == p;
        assert b in m - {a} && (m - {a})[b] == p;
      }
    }
  }

  lemma {:induction false} SumScale(m: map<nat, nat>, c: nat)
    ensures Sum(Scaled(m, c)) == Times(Sum(m), c)
    decreases |m|
  {
    hide Times, Sum;
    TimesAdd(0, 0, c);
    SumEmpty();
    if m == map[] {
      assert Scaled(m, c) == map[];
    } else {
      var k :| k in m;
      FewerKeys(m, k);
      SumRemove(m, k);
      SumScale(m - {k}, c);
      SumRemove(Scaled(m, c), k);
      assert Scaled(m, c) - {k} == Scaled(m - {k}, c);
      TimesAdd(m[k], Sum(m - {k}), c);
    }
  }

  ghost function Scaled(m: map<nat, nat>, c: nat): map<nat, nat>
  {
    map k | k in m :: Times(m[k], c)
  }
}
