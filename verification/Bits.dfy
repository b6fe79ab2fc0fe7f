/** Binary digits of natural numbers, and the two roundings to a power of two. */
module Bits {

  function Pow2(k: nat): (p: nat)
    ensures p > 0
  {
    if k == 0 then 1 else 2 * Pow2(k - 1)
  }

  predicate Bit(a: nat, i: nat) {
    if i == 0 then a % 2 == 1 else Bit(a / 2, i - 1)
  }

  /** C's `|` */
  function Or(a: nat, b: nat): (c: nat)
    decreases a + b
  {
    if a == 0 then b else if b == 0 then a
    else (if a % 2 == 1 || b % 2 == 1 then 1 else 0) + 2 * Or(a / 2, b / 2)
  }

  /** C's `>>` */
  function Shr(a: nat, s: nat): nat {
    if s == 0 then a else Shr(a / 2, s - 1)
  }

  lemma {:induction false} ZeroBits(i: nat)
    ensures !Bit(0, i)
    decreases i
  {
    if i > 0 {
      ZeroBits(i - 1);
    }
  }

  lemma {:induction false} OrBit(a: nat, b: nat, i: nat)
    ensures Bit(Or(a, b), i) <==> Bit(a, i) || Bit(b, i)
    decreases a + b, i
  {
    if a == 0 || b == 0 {
      ZeroBits(i);
    } else if i > 0 {
      OrBit(a / 2, b / 2, i - 1);
    }
  }

  lemma {:induction false} ShrBit(a: nat, s: nat, i: nat)
    ensures Bit(Shr(a, s), i) <==> Bit(a, i + s)
    decreases s
  {
    if s > 0 {
      ShrBit(a / 2, s - 1, i);
    }
  }

  lemma {:induction false} OrBounds(a: nat, b: nat, k: nat)
    ensures a <= Or(a, b) && b <= Or(a, b)
    ensures a < Pow2(k) && b < Pow2(k) ==> Or(a, b) < Pow2(k)
    decreases a + b
  {
    if a != 0 && b != 0 {
      OrBounds(a / 2, b / 2, if k == 0 then 0 else k - 1);
    }
  }

  lemma {:induction false} ShrSmaller(a: nat, s: nat)
    ensures Shr(a, s) <= a
    decreases s
  {
    if s > 0 {
      ShrSmaller(a / 2, s - 1);
    }
  }

  lemma {:induction false} TopBit(a: nat, k: nat)
    requires Pow2(k) <= a < Pow2(k + 1)
    ensures Bit(a, k)
    decreases k
  {
    if k > 0 {
      TopBit(a / 2, k - 1);
    }
  }

  lemma {:induction false} AllOnes(a: nat, k: nat)
    requires a < Pow2(k) && forall i: nat | i < k :: Bit(a, i)
    ensures a == Pow2(k) - 1
    decreases k
  {
    if k > 0 {
      forall i: nat | i < k - 1
        ensures Bit(a / 2, i)
      {
        assert Bit(a, i + 1);
      }
      AllOnes(a / 2, k - 1);
      assert Bit(a, 0);
    }
  }

  lemma {:induction false} Pow2Grows(a: nat, b: nat)
    requires a < b
    ensures 2 * Pow2(a) <= Pow2(b)
    decreases b - a
  {
    if a + 1 < b {
      Pow2Grows(a, b - 1);
    }
  }

  // ---------------------------------------------------------------- smearing

  const SIZE_MOD: nat := 0x1_0000_0000_0000_0000

  lemma SizeMod()
    ensures Pow2(64) == SIZE_MOD
  {
    Pow2At32();
    Pow2Sum(32, 32);
  }

  lemma {:induction false} Pow2Sum(a: nat, b: nat)
    ensures Pow2(a + b) == Pow2(a) * Pow2(b)
    decreases b
  {
    if b > 0 {
      Pow2Sum(a, b - 1);
    }
  }

  function Smear(x: nat, s: nat): nat {
    Or(x, Shr(x, s))
  }

  /** The five shifts of `next_pow2`. */
  function SmearAll(x: nat): nat {
    Smear(Smear(Smear(Smear(Smear(x, 1), 2), 4), 8), 16)
  }

  /** `next_pow2` on a 64-bit `size_t` */
  function NextPow2(n: nat): nat
    requires n < SIZE_MOD
  {
    (SmearAll((n + SIZE_MOD - 1) % SIZE_MOD) + 1) % SIZE_MOD
  }

  /** The step-by-step form. */
  method NextPow2Steps(n: nat) returns (out: nat)
    requires n < SIZE_MOD
    ensures out == NextPow2(n)
  {
    out := (n + SIZE_MOD - 1) % SIZE_MOD;
    out := Or(out, Shr(out, 1));
    out := Or(out, Shr(out, 2));
    out := Or(out, Shr(out, 4));
    out := Or(out, Shr(out, 8));
    out := Or(out, Shr(out, 16));
    out := (out + 1) % SIZE_MOD;
  }

  /** One of the `w` bits from `lo` on is set. */
  ghost predicate AnyBit(x: nat, lo: nat, w: nat) {
    exists j: nat :: lo <= j < lo + w && Bit(x, j)
  }

  lemma AnySplit(x: nat, lo: nat, w: nat)
    ensures AnyBit(x, lo, 2 * w) <==> AnyBit(x, lo, w) || AnyBit(x, lo + w, w)
  {
    hide Bit;
    if j: nat :| lo <= j < lo + 2 * w && Bit(x, j) {
      assert j < lo + w ==> AnyBit(x, lo, w);
    }
  }

  /** Bit `i` of `y` is set when one of the bits `i` to `i + w - 1` of `x` is. */
  ghost predicate Spread(x: nat, y: nat, w: nat) {
    forall i: nat :: Bit(y, i) <==> AnyBit(x, i, w)
  }

  lemma SmearSpreads(x: nat, y: nat, w: nat)
    requires Spread(x, y, w)
    ensures Spread(x, Smear(y, w), 2 * w)
  {
    hide Bit, AnyBit, Or, Shr;
    forall i: nat
      ensures Bit(Smear(y, w), i) <==> AnyBit(x, i, 2 * w)
    {
      OrBit(y, Shr(y, w), i);
      ShrBit(y, w, i);
      AnySplit(x, i, w);
    }
  }

  lemma SmearSizes(y: nat, w: nat, k: nat)
    requires y < Pow2(k)
    ensures y <= Smear(y, w) < Pow2(k)
  {
    ShrSmaller(y, w);
    OrBounds(y, Shr(y, w), k);
  }

  /** Together the five shifts fill 32 bits, keep what was set, and stay below any power of two. */
  lemma SmearAllMeans(x: nat, k: nat)
    requires x < Pow2(k)
    ensures Spread(x, SmearAll(x), 32) && x <= SmearAll(x) < Pow2(k)
  {
    hide Smear, Spread;
    var a := Smear(x, 1);
    var b := Smear(a, 2);
    var c := Smear(b, 4);
    var d := Smear(c, 8);
    SpreadSelf(x);
    SmearSpreads(x, x, 1);
    SmearSpreads(x, a, 2);
    SmearSpreads(x, b, 4);
    SmearSpreads(x, c, 8);
    SmearSpreads(x, d, 16);
    SmearSizes(x, 1, k);
    SmearSizes(a, 2, k);
    SmearSizes(b, 4, k);
    SmearSizes(c, 8, k);
    SmearSizes(d, 16, k);
  }

  lemma SpreadSelf(x: nat)
    ensures Spread(x, x, 1)
  {
  }

  // ---------------------------------------------------------------- the least power of two

  ghost predicate IsLeastPow2(n: nat, p: nat) {
    exists k: nat :: p == Pow2(k) && LeastAt(n, k)
  }

  /** 2^k is the first power of two not below `n`. */
  ghost predicate LeastAt(n: nat, k: nat) {
    n <= Pow2(k) && forall j: nat | j < k :: Pow2(j) < n
  }

  lemma {:induction false} FindTop(x: nat, bound: nat) returns (k: nat)
    requires 0 < x < Pow2(bound)
    ensures k < bound && Pow2(k) <= x < Pow2(k + 1)
    decreases bound
  {
    if Pow2(bound - 1) <= x {
      k := bound - 1;
    } else {
      k := FindTop(x, bound - 1);
    }
  }

  /** Below the top bit `k` there are nowhere 32 zero bits in a row. */
  ghost predicate NoGap(x: nat, k: nat) {
    forall i: nat | i <= k :: AnyBit(x, i, 32)
  }

  /** The smear sets every bit below the top one exactly when there is no gap of 32 zeros. */
  lemma SmearFills(x: nat, k: nat)
    requires Pow2(k) <= x < Pow2(k + 1)
    ensures SmearAll(x) == Pow2(k + 1) - 1 <==> NoGap(x, k)
  {
    hide SmearAll, AnyBit;
    SmearAllMeans(x, k + 1);
    if NoGap(x, k) {
      forall i: nat | i < k + 1
        ensures Bit(SmearAll(x), i)
      {
        assert AnyBit(x, i, 32);
      }
      AllOnes(SmearAll(x), k + 1);
    }
    if SmearAll(x) == Pow2(k + 1) - 1 {
      forall i: nat | i <= k
        ensures AnyBit(x, i, 32)
      {
        OnesBit(k + 1, i);
      }
    }
  }

  lemma {:induction false} OnesBit(k: nat, i: nat)
    requires i < k
    ensures Bit(Pow2(k) - 1, i)
    decreases k
  {
    if i > 0 {
      assert (Pow2(k) - 1) / 2 == Pow2(k - 1) - 1;
      OnesBit(k - 1, i - 1);
    }
  }

  lemma FewBits(x: nat, k: nat)
    requires Pow2(k) <= x < Pow2(k + 1) && k < 32
    ensures NoGap(x, k)
  {
    TopBit(x, k);
  }

  lemma LeastAbove(x: nat, k: nat)
    requires Pow2(k) <= x < Pow2(k + 1)
    ensures LeastAt(x + 1, k + 1)
  {
    forall j: nat | j < k + 1
      ensures Pow2(j) < x + 1
    {
      if j < k {
        Pow2Grows(j, k);
      }
    }
  }

  lemma Pow2At32()
    ensures Pow2(32) == 0x1_0000_0000
  {
    assert Pow2(2) == 4;
    Pow2Sum(2, 2);
    Pow2Sum(4, 4);
    Pow2Sum(8, 8);
    Pow2Sum(16, 16);
  }

  /** For sizes up to 2^32 the bit trick gives the least power of two that is large enough. */
  lemma NextPow2IsLeast(n: nat)
    requires 1 <= n <= 0x1_0000_0000
    ensures IsLeastPow2(n, NextPow2(n))
  {
    hide SmearAll, LeastAt, NoGap;
    var x := n - 1;
    Pow2At32();
    assert (n + SIZE_MOD - 1) % SIZE_MOD == x;
    if x == 0 {
      NextOfOne();
    } else {
      var k := FindTop(x, 32);
      FewBits(x, k);
      SmearFills(x, k);
      LeastAbove(x, k);
      if k + 1 < 32 {
        Pow2Grows(k + 1, 32);
      }
      assert NextPow2(n) == Pow2(k + 1);
    }
  }

  lemma NextOfOne()
    ensures NextPow2(1) == 1 && IsLeastPow2(1, 1)
  {
    assert SmearAll(0) == 0;
    assert LeastAt(1, 0) && Pow2(0) == 1;
  }

  /** What the comment of `next_pow2` promises: the least power of two that is large enough, or 0 on overflow. */
  ghost predicate Promised(n: nat, r: nat) {
    if n <= 0x8000_0000_0000_0000 then IsLeastPow2(n, r) else r == 0
  }

  /**
   For every size from 2 on the promise is kept exactly when `n - 1` has no 32 zero bits in a row below
   its top bit `k`: a shift by 32 is missing.
   */
  lemma NextPow2Exactly(n: nat, k: nat)
    requires 2 <= n < SIZE_MOD && Pow2(k) <= n - 1 < Pow2(k + 1)
    ensures Promised(n, NextPow2(n)) <==> NoGap(n - 1, k)
  {
    hide SmearAll, LeastAt, NoGap, IsLeastPow2;
    var x := n - 1;
    SizeMod();
    TopPlace(k, x);
    assert (n + SIZE_MOD - 1) % SIZE_MOD == x;
    SmearFills(x, k);
    SmearAllMeans(x, k + 1);
    if k < 63 {
      Pow2Grows(k + 1, 64);
      LeastFound(n, k);
      if IsLeastPow2(n, NextPow2(n)) {
        LeastIsUnique(n, NextPow2(n), Pow2(k + 1));
      }
    }
  }

  lemma TopPlace(k: nat, x: nat)
    requires Pow2(k) <= x < SIZE_MOD
    ensures k < 64 && Pow2(63) == 0x8000_0000_0000_0000 && Pow2(64) == SIZE_MOD
    ensures x < Pow2(k + 1) ==> (k < 63 <==> x < 0x8000_0000_0000_0000)
  {
    SizeMod();
    if 64 < k {
      Pow2Grows(64, k);
    }
    if k < 63 {
      Pow2Grows(k + 1, 64);
    }
  }

  lemma LeastFound(n: nat, k: nat)
    requires 1 <= n && Pow2(k) <= n - 1 < Pow2(k + 1)
    ensures IsLeastPow2(n, Pow2(k + 1))
  {
    hide LeastAt;
    LeastAbove(n - 1, k);
  }

  /** The first size that is rounded to something else than a power of two. */
  lemma GapExample()
    ensures !IsLeastPow2(0x1_0000_0001, NextPow2(0x1_0000_0001))
  {
    hide NextPow2, IsLeastPow2, Bit;
    Pow2At32();
    forall j: nat | j < 32
      ensures !Bit(0x1_0000_0000, j)
    {
      LowBits(32, j);
    }
    assert !AnyBit(0x1_0000_0000, 0, 32);
    assert !NoGap(0x1_0000_0000, 32);
    Pow2Sum(32, 1);
    assert Pow2(1) == 2;
    NextPow2Exactly(0x1_0000_0001, 32);
  }

  lemma {:induction false} LowBits(k: nat, j: nat)
    requires j < k
    ensures !Bit(Pow2(k), j)
    decreases k
  {
    if j > 0 {
      LowBits(k - 1, j - 1);
    }
  }

  /** Beyond 2^32, and at 0, the result is 0 or large enough. */
  lemma NextPow2Otherwise(n: nat)
    requires n < SIZE_MOD
    ensures NextPow2(n) == 0 || n <= NextPow2(n)
    ensures n == 0 ==> NextPow2(n) == 0
  {
    hide SmearAll;
    SizeMod();
    var x := (n + SIZE_MOD - 1) % SIZE_MOD;
    SmearAllMeans(x, 64);
    if n > 0 {
      assert x == n - 1;
    }
  }

  /** `next_p2` of afl-fuzz.h */
  method NextP2(val: nat) returns (ret: nat)
    requires val <= 0x8000_0000_0000_0000
    ensures IsLeastPow2(val, ret) && ret < SIZE_MOD
    ensures 1 <= val <= 0x1_0000_0000 ==> ret == NextPow2(val)
  {
    ret := 1;
    ghost var k := 0;
    assert Pow2(0) == 1;
    while val > ret
      invariant ret == Pow2(k) && forall j: nat | j < k :: Pow2(j) < val
      invariant ret <= 0x8000_0000_0000_0000
      decreases 2 * val - ret
    {
      HalfRange(k);
      ret := ret * 2 % SIZE_MOD;
      k := k + 1;
    }
    assert LeastAt(val, k);
    if 1 <= val <= 0x1_0000_0000 {
      NextPow2IsLeast(val);
      LeastIsUnique(val, ret, NextPow2(val));
    }
  }

  /** Below 2^63 doubling a power of two does not pass 2^63. */
  lemma HalfRange(k: nat)
    requires Pow2(k) < 0x8000_0000_0000_0000
    ensures 2 * Pow2(k) <= 0x8000_0000_0000_0000
  {
    SizeMod();
    if k < 63 {
      if k + 1 < 63 {
        Pow2Grows(k + 1, 63);
      }
    } else if k > 63 {
      Pow2Grows(63, k);
    }
  }

  /** There is only one least power of two, so the two roundings agree wherever both are used. */
  lemma LeastIsUnique(n: nat, p: nat, q: nat)
    requires IsLeastPow2(n, p) && IsLeastPow2(n, q)
    ensures p == q
  {
    var i: nat :| p == Pow2(i) && LeastAt(n, i);
    var j: nat :| q == Pow2(j) && LeastAt(n, j);
  }
}
