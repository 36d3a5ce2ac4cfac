/** Unsigned machine words as natural numbers below Pow2(WORD): the mask arithmetic of
    RegionInfo.cpp and the bit smearing of utils.hpp, with their meaning as division facts. */
module Bits {

  /** Width of std::size_t and std::uintptr_t on a 64-bit target. */
  const WORD: nat := 64

  /** Width of unsigned int. */
  const UINT: nat := 32

  function Pow2(k: nat): (r: nat)
    ensures r >= 1
  {
    if k == 0 then 1 else 2 * Pow2(k - 1)
  }

  /** Bitwise and, or: the low bits are combined, then the rest. */
  function BitAnd(a: nat, b: nat): nat
  {
    if a == 0 then 0
    else (if a % 2 == 1 && b % 2 == 1 then 1 else 0) + 2 * BitAnd(a / 2, b / 2)
  }

  function BitOr(a: nat, b: nat): nat
    decreases a + b
  {
    if a == 0 && b == 0 then 0
    else (if a % 2 == 1 || b % 2 == 1 then 1 else 0) + 2 * BitOr(a / 2, b / 2)
  }

  /** One's complement in a word of the given width. */
  function BitNot(a: nat, width: nat): nat
    requires a < Pow2(width)
  {
    Pow2(width) - 1 - a
  }

  ghost predicate PowerOf2(v: nat)
  {
    exists k: nat :: v == Pow2(k)
  }

  lemma {:induction false} Pow2Add(a: nat, b: nat)
    ensures Pow2(a + b) == Pow2(a) * Pow2(b)
  {
    if a > 0 {
      Pow2Add(a - 1, b);
    }
  }

  lemma {:induction false} Pow2Mono(a: nat, b: nat)
    requires a <= b
    ensures Pow2(a) <= Pow2(b)
    ensures a < b ==> 2 * Pow2(a) <= Pow2(b)
  {
    if a < b {
      Pow2Mono(a, b - 1);
    }
  }

  /** A power of two divides every larger one. */
  lemma {:induction false} Pow2Divides(a: nat, b: nat)
    requires a <= b
    ensures Pow2(b) % Pow2(a) == 0
    ensures Pow2(b) / Pow2(a) == Pow2(b - a)
    ensures Pow2(b - a) * Pow2(a) == Pow2(b)
  {
    Pow2Add(b - a, a);
    MulDivMod(Pow2(b - a), Pow2(a), 0);
  }

  lemma QuotientUnique(q: int, y: int, d: int, r: int, m: int)
    requires 0 <= r < d && 0 <= m < d
    requires q * d + r == y * d + m
    ensures q == y
  {
    if q > y {
      MulAtLeast(q - y, d);
    } else if q < y {
      MulAtLeast(y - q, d);
    }
  }

  lemma MulAtLeast(n: int, d: int)
    requires n >= 1 && d > 0
    ensures n * d >= d
  {
    assert (n - 1) * d >= 0;
  }

  lemma MulLess(x: int, y: int, d: int)
    requires d > 0 && x * d < y * d
    ensures x < y && x * d + d <= y * d
  {
    if x < y {
      MulAtLeast(y - x, d);
    }
  }

  lemma MulDivMod(q: int, d: int, r: int)
    requires 0 <= r < d
    ensures (q * d + r) / d == q
    ensures (q * d + r) % d == r
  {
    var x := q * d + r;
    QuotientUnique(q, x / d, d, r, x % d);
  }

  lemma {:induction false} AndAllOnes(a: nat, width: nat)
    requires a < Pow2(width)
    ensures BitAnd(a, Pow2(width) - 1) == a
  {
    if a > 0 {
      assert width > 0;
      var m, h := Pow2(width) - 1, Pow2(width - 1) - 1;
      assert m == 2 * h + 1;
      assert m / 2 == h && m % 2 == 1;
      AndAllOnes(a / 2, width - 1);
    }
  }

  lemma ModByEven(a: nat, m: nat)
    requires m > 0
    ensures a % (2 * m) == a % 2 + 2 * ((a / 2) % m)
  {
    var q, r := (a / 2) / m, (a / 2) % m;
    assert a / 2 == q * m + r;
    TwiceProduct(q, m);
    MulDivMod(q, 2 * m, a % 2 + 2 * r);
  }

  lemma TwiceProduct(q: int, m: int)
    ensures q * (2 * m) == 2 * (q * m)
  {
  }

  /** An even mask clears the lowest bit. */
  lemma AndEven(a: nat, mask: nat)
    ensures BitAnd(a, 2 * mask) == 2 * BitAnd(a / 2, mask)
  {
    var m := 2 * mask;
    assert m % 2 == 0 && m / 2 == mask;
  }

  lemma AndEvenMask(a: nat, mask: nat, p: nat)
    requires p > 0
    requires BitAnd(a / 2, mask) == a / 2 - (a / 2) % p
    ensures BitAnd(a, 2 * mask) == a - a % (2 * p)
  {
    hide BitAnd;
    AndEven(a, mask);
    ModByEven(a, p);
  }

  lemma NotStep(k: nat, width: nat)
    requires 0 < k <= width
    ensures Pow2(k) - 1 < Pow2(width) && Pow2(k - 1) - 1 < Pow2(width - 1)
    ensures BitNot(Pow2(k) - 1, width) == 2 * BitNot(Pow2(k - 1) - 1, width - 1)
  {
    Pow2Mono(k, width);
    Pow2Mono(k - 1, width - 1);
  }

  lemma NotNothing(width: nat)
    ensures Pow2(0) == 1 && BitNot(0, width) == Pow2(width) - 1
  {
  }

  lemma ModOne(a: nat)
    ensures a % 1 == 0
  {
  }

  /** The mask `a & ~(p - 1)` of RegionInfo.cpp and PageAllocator.cpp rounds a word down to a
      multiple of the power of two p. */
  lemma {:induction false} MaskRoundsDown(a: nat, k: nat, width: nat)
    requires k <= width && a < Pow2(width)
    ensures Pow2(k) - 1 < Pow2(width)
    ensures BitAnd(a, BitNot(Pow2(k) - 1, width)) == a - a % Pow2(k)
    decreases k
  {
    hide BitAnd, BitNot;
    Pow2Mono(k, width);
    if k == 0 {
      AndAllOnes(a, width);
      NotNothing(width);
      ModOne(a);
    } else {
      NotStep(k, width);
      MaskRoundsDown(a / 2, k - 1, width - 1);
      AndEvenMask(a, BitNot(Pow2(k - 1) - 1, width - 1), Pow2(k - 1));
    }
  }

  /** isPowerOf2 (utils.hpp) on a non-zero word. */
  predicate IsPowerOf2(value: nat)
  {
    value > 0 && BitAnd(value, value - 1) == 0
  }

  lemma {:induction false} IsPowerOf2Correct(value: nat)
    ensures IsPowerOf2(value) <==> PowerOf2(value)
  {
    if value == 0 {
    } else if value == 1 {
      assert value == Pow2(0);
      assert BitAnd(1, 0) == 0 by { assert BitAnd(0, 0) == 0; }
    } else if value % 2 == 1 {
      AndPositive(value / 2, value / 2);
      assert (value - 1) / 2 == value / 2;
      forall k: nat ensures value != Pow2(k) { }
    } else {
      IsPowerOf2Correct(value / 2);
      assert (value - 1) / 2 == value / 2 - 1;
      if PowerOf2(value / 2) {
        var k: nat :| value / 2 == Pow2(k);
        assert value == Pow2(k + 1);
      }
      if PowerOf2(value) {
        var k: nat :| value == Pow2(k);
        assert value / 2 == Pow2(k - 1);
      }
    }
  }

  lemma {:induction false} AndPositive(a: nat, b: nat)
    requires a == b > 0
    ensures BitAnd(a, b) == a
  {
    if a > 1 {
      AndPositive(a / 2, b / 2);
    } else {
      assert BitAnd(0, 0) == 0;
    }
  }

  /** std::floor(std::log2(n)) for n >= 1. */
  function Log2(n: nat): (k: nat)
    requires n >= 1
    ensures Pow2(k) <= n < 2 * Pow2(k)
  {
    if n == 1 then 0 else 1 + Log2(n / 2)
  }

  lemma Log2Unique(n: nat, k: nat)
    requires Pow2(k) <= n < 2 * Pow2(k)
    ensures Log2(n) == k
  {
    if Log2(n) < k {
      Pow2Mono(Log2(n), k);
    } else if Log2(n) > k {
      Pow2Mono(k, Log2(n));
    }
  }

  lemma Log2Mono(a: nat, b: nat)
    requires 1 <= a <= b
    ensures Log2(a) <= Log2(b)
  {
    if Log2(b) < Log2(a) {
      Pow2Mono(Log2(b), Log2(a));
    }
  }

  /** The least power of two that is not below v. */
  function CeilPow2(v: nat): (r: nat)
    requires v >= 1
    ensures r >= v && r < 2 * v
  {
    if v == 1 then 1 else 2 * Pow2(Log2(v - 1))
  }

  lemma CeilPow2Is(v: nat, k: nat)
    requires k >= 1 && Pow2(k - 1) < v <= Pow2(k)
    ensures CeilPow2(v) == Pow2(k)
  {
    Log2Unique(v - 1, k - 1);
  }

  lemma CeilPow2Least(v: nat)
    requires v >= 1
    ensures PowerOf2(CeilPow2(v))
    ensures forall k: nat :: v <= Pow2(k) ==> CeilPow2(v) <= Pow2(k)
  {
    if v == 1 {
      assert CeilPow2(v) == Pow2(0);
    } else {
      var l := Log2(v - 1);
      assert CeilPow2(v) == Pow2(l + 1);
      forall k: nat | v <= Pow2(k) ensures CeilPow2(v) <= Pow2(k) {
        if k <= l { Pow2Mono(k, l); } else { Pow2Mono(l + 1, k); }
      }
    }
  }

  /** Bit i of x. */
  predicate Bit(x: nat, i: nat)
  {
    if i == 0 then x % 2 == 1 else Bit(x / 2, i - 1)
  }

  /** x >> j. */
  function Shr(x: nat, j: nat): nat
  {
    if j == 0 then x else Shr(x / 2, j - 1)
  }

  lemma {:induction false} BitOfOr(a: nat, b: nat, i: nat)
    ensures Bit(BitOr(a, b), i) <==> Bit(a, i) || Bit(b, i)
    decreases i
  {
    var o := BitOr(a, b);
    assert o / 2 == BitOr(a / 2, b / 2) && (o % 2 == 1 <==> a % 2 == 1 || b % 2 == 1) by {
      if a == 0 && b == 0 {
        assert BitOr(0, 0) == 0;
      }
    }
    if i > 0 {
      BitOfOr(a / 2, b / 2, i - 1);
    }
  }

  lemma {:induction false} BitOfShr(x: nat, j: nat, i: nat)
    ensures Bit(Shr(x, j), i) == Bit(x, i + j)
  {
    if j > 0 {
      BitOfShr(x / 2, j - 1, i);
    }
  }

  lemma {:induction false} BitsAboveClear(x: nat, k: nat, i: nat)
    requires x < Pow2(k) && i >= k
    ensures !Bit(x, i)
  {
    if k > 0 {
      BitsAboveClear(x / 2, k - 1, i - 1);
    } else if i > 0 {
      BitsAboveClear(x / 2, 0, i - 1);
    }
  }

  lemma {:induction false} TopBitSet(x: nat, k: nat)
    requires Pow2(k) <= x < 2 * Pow2(k)
    ensures Bit(x, k)
  {
    if k > 0 {
      TopBitSet(x / 2, k - 1);
    }
  }

  lemma {:induction false} AllOnes(x: nat, k: nat)
    requires forall i: nat :: Bit(x, i) <==> i < k
    ensures x == Pow2(k) - 1
    decreases x
  {
    if x == 0 {
      var low := Bit(x, 0);
    } else {
      if k == 0 {
        TopBitSet(x, Log2(x));
      }
      assert Bit(x, 0);
      forall i: nat ensures Bit(x / 2, i) <==> i < k - 1 {
        assert Bit(x, i + 1) == Bit(x / 2, i);
      }
      AllOnes(x / 2, k - 1);
    }
  }

  /** The j highest of the k + 1 low bits of x are set and no bit above them is. */
  ghost predicate TopOnes(x: nat, k: nat, j: nat)
  {
    forall i: nat :: (k + 1 <= i + j && i <= k ==> Bit(x, i)) && (i > k ==> !Bit(x, i))
  }

  /** One smearing step `x |= x >> j` doubles the run of leading ones. */
  lemma SmearStep(x: nat, k: nat, j: nat)
    requires TopOnes(x, k, j)
    ensures TopOnes(BitOr(x, Shr(x, j)), k, 2 * j)
  {
    forall i: nat
      ensures (k + 1 <= i + 2 * j && i <= k ==> Bit(BitOr(x, Shr(x, j)), i))
      ensures (i > k ==> !Bit(BitOr(x, Shr(x, j)), i))
    {
      BitOfOr(x, Shr(x, j), i);
      BitOfShr(x, j, i);
    }
  }

  lemma TopOnesInit(x: nat, k: nat)
    requires Pow2(k) <= x < 2 * Pow2(k)
    ensures TopOnes(x, k, 1)
  {
    TopBitSet(x, k);
    forall i: nat | i > k ensures !Bit(x, i) {
      BitsAboveClear(x, k + 1, i);
    }
  }

  lemma TopOnesFull(x: nat, k: nat, j: nat)
    requires TopOnes(x, k, j) && j >= k + 1
    ensures x == Pow2(k + 1) - 1
  {
    AllOnes(x, k + 1);
  }

  lemma {:induction false} SmearZero(j: nat)
    ensures Shr(0, j) == 0 && BitOr(0, Shr(0, j)) == 0
  {
    if j > 0 {
      SmearZero(j - 1);
    }
  }

  lemma SmallMod(x: nat, p: nat)
    requires x < p
    ensures x % p == x && (x + p) % p == x
  {
    MulDivMod(0, p, x);
    MulDivMod(1, p, x);
  }

  /** An integer stored in an unsigned type of the given width. */
  function Truncate(x: int, width: nat): (r: nat)
    ensures r < Pow2(width)
  {
    x % Pow2(width)
  }

  lemma TruncateIs(x: int, q: int, r: int, width: nat)
    requires x == q * Pow2(width) + r && 0 <= r < Pow2(width)
    ensures Truncate(x, width) == r
  {
    hide Pow2;
    MulDivMod(q, Pow2(width), r);
  }

  lemma TruncateSmall(x: int, width: nat)
    requires 0 <= x < Pow2(width)
    ensures Truncate(x, width) == x
  {
    TruncateIs(x, 0, x, width);
  }

  /** Only the last truncation of a sum matters. */
  lemma TruncateSum(x: int, d: int, width: nat)
    ensures Truncate(Truncate(x, width) + d, width) == Truncate(x + d, width)
  {
    hide Pow2;
    var m := Pow2(width);
    var t := Truncate(x, width) + d;
    var r := Truncate(t, width);
    assert x == (x / m) * m + Truncate(x, width);
    assert t == (t / m) * m + r;
    assert (x / m + t / m) * m == (x / m) * m + (t / m) * m;
    TruncateIs(x + d, x / m + t / m, r, width);
  }

  /** `++x` and `--x` on a machine word. */
  function Increment(x: nat): (r: nat)
    requires x < Pow2(WORD)
    ensures r == if x + 1 < Pow2(WORD) then x + 1 else 0
  {
    if x + 1 < Pow2(WORD) then SmallMod(x + 1, Pow2(WORD)); (x + 1) % Pow2(WORD)
    else SmallMod(0, Pow2(WORD)); (x + 1) % Pow2(WORD)
  }

  function Decrement(x: nat): (r: nat)
    requires x < Pow2(WORD)
    ensures r == if x > 0 then x - 1 else Pow2(WORD) - 1
  {
    SmallMod(if x > 0 then x - 1 else Pow2(WORD) - 1, Pow2(WORD));
    (x + Pow2(WORD) - 1) % Pow2(WORD)
  }

  lemma {:induction false} OrBound(a: nat, b: nat, k: nat)
    requires a < Pow2(k) && b < Pow2(k)
    ensures BitOr(a, b) < Pow2(k)
  {
    if k > 0 {
      OrBound(a / 2, b / 2, k - 1);
    } else {
      assert BitOr(0, 0) == 0;
    }
  }

  lemma {:induction false} ShrBound(x: nat, j: nat)
    ensures Shr(x, j) <= x
  {
    if j > 0 {
      ShrBound(x / 2, j - 1);
    }
  }

  /** One statement `result |= (result >> j)` of roundPowerOf2. */
  method Smear(x: nat, j: nat, ghost k: nat) returns (result: nat)
    requires x < Pow2(WORD)
    ensures result == BitOr(x, Shr(x, j)) < Pow2(WORD)
    ensures x == 0 ==> result == 0
    ensures TopOnes(x, k, j) ==> TopOnes(result, k, 2 * j)
  {
    result := BitOr(x, Shr(x, j));
    ShrBound(x, j);
    OrBound(x, Shr(x, j), WORD);
    if x == 0 {
      SmearZero(j);
    }
    if TopOnes(x, k, j) {
      SmearStep(x, k, j);
    }
  }

  /** roundPowerOf2 (utils.hpp). The shifts stop at 16, so the smearing covers 32 bits: the promise
      holds for every value up to 2^32, which is wider than any chunk size. */
  method RoundPowerOf2(value: nat) returns (result: nat)
    requires value < Pow2(WORD)
    ensures 1 <= value <= Pow2(32) ==> result == CeilPow2(value)
    ensures result < Pow2(WORD)
  {
    hide *;
    result := value;
    result := Decrement(result);
    ghost var m := result;
    ghost var k := if m == 0 then 0 else Log2(m);
    if m > 0 {
      TopOnesInit(m, k);
    }
    result := Smear(result, 1, k);
    result := Smear(result, 2, k);
    result := Smear(result, 4, k);
    result := Smear(result, 8, k);
    result := Smear(result, 16, k);
    if value == 1 {
      SmearedOne();
    } else if 1 < value <= Pow2(32) {
      SmearedWord(m, k, result);
    }
    result := Increment(result);
  }

  lemma SmearedOne()
    ensures CeilPow2(1) == 1 < Pow2(WORD)
  {
    Pow2Mono(0, WORD);
  }

  lemma CeilPow2Successor(m: nat)
    requires m > 0
    ensures CeilPow2(m + 1) == Pow2(Log2(m) + 1)
  {
  }

  lemma SmearedWord(m: nat, k: nat, x: nat)
    requires 0 < m < Pow2(32) && k == Log2(m)
    requires TopOnes(x, k, 32)
    ensures x == Pow2(k + 1) - 1 && x + 1 == CeilPow2(m + 1) < Pow2(WORD)
  {
    hide Pow2, Log2, CeilPow2, TopOnes;
    if k >= 32 {
      Pow2Mono(32, k);
    }
    TopOnesFull(x, k, 32);
    Pow2Mono(k + 1, WORD);
    CeilPow2Successor(m);
  }
}
