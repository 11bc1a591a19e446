/**
 * Integer versions of the few numeric helpers the paging engine uses:
 * Unity's Mathf.IsPowerOfTwo, Mathf.Min, Mathf.Clamp and the rounded
 * base-2 logarithm of a power of two, plus C#'s `>>` on a 32-bit int.
 */
module Mathf {

  /** Largest value of a C# `int`. */
  const MaxInt32: int := 0x7FFF_FFFF

  /** 2 to the power k. */
  function Pow2(k: nat): (r: nat)
    ensures r >= 1
  {
    if k == 0 then 1 else 2 * Pow2(k - 1)
  }

  /** n is a positive power of two (1, 2, 4, ...). */
  predicate IsPowerOfTwo(n: int)
    decreases if n < 0 then 0 else n
  {
    n == 1 || (n >= 2 && n % 2 == 0 && IsPowerOfTwo(n / 2))
  }

  /** Floor of the base-2 logarithm of n (0 for n <= 1). */
  function Log2(n: int): nat
    decreases if n < 0 then 0 else n
  {
    if n <= 1 then 0 else 1 + Log2(n / 2)
  }

  /** Mathf.Min on integers. */
  function Min(a: int, b: int): (r: int)
    ensures r <= a && r <= b && (r == a || r == b)
  {
    if a <= b then a else b
  }

  /** Mathf.Clamp on integers: the lower bound is tested first. */
  function Clamp(value: int, min: int, max: int): (r: int)
    ensures min <= max ==> min <= r <= max
    ensures min <= value <= max ==> r == value
    ensures value < min ==> r == min
    ensures min <= max < value ==> r == max
  {
    if value < min then min else if value > max then max else value
  }

  /** n halved k times, rounding down (Euclidean `/` by 2 is floor division). */
  function Halve(n: int, k: nat): int
    decreases k
  {
    if k == 0 then n else Halve(n / 2, k - 1)
  }

  /**
   * C#'s `n >> s` on a 32-bit int: the shift count is masked to its low five
   * bits (Euclidean `% 32` agrees with `& 31` also for negative counts) and
   * the shift is arithmetic, one floor halving per bit.
   */
  function ShiftRight(n: int, s: int): int
  {
    Halve(n, s % 32)
  }

  lemma {:induction false} Pow2Add(a: nat, b: nat)
    ensures Pow2(a + b) == Pow2(a) * Pow2(b)
  {
    if a > 0 {
      Pow2Add(a - 1, b);
    }
  }

  /** The logarithm of a power of two is exact. */
  lemma {:induction false} PowerOfTwoLog2(n: int)
    requires IsPowerOfTwo(n)
    ensures Pow2(Log2(n)) == n
  {
    if n != 1 {
      PowerOfTwoLog2(n / 2);
    }
  }

  lemma {:induction false} Log2Monotone(a: int, b: int)
    requires 1 <= a <= b
    ensures Log2(a) <= Log2(b)
  {
    if a > 1 {
      Log2Monotone(a / 2, b / 2);
    }
  }

  lemma {:induction false} Log2Below(n: int, k: nat)
    requires 1 <= n < Pow2(k)
    ensures Log2(n) < k
  {
    if n > 1 {
      Log2Below(n / 2, k - 1);
    }
  }

  /** A positive C# int has a base-2 logarithm of at most 30. */
  lemma Log2Int32(n: int)
    requires 1 <= n <= MaxInt32
    ensures Log2(n) <= 30
  {
    assert Pow2(15) == 0x8000 && Pow2(16) == 0x1_0000;
    Pow2Add(16, 15);
    Log2Below(n, 31);
  }

  /** Halving a nonnegative number keeps it between 0 and itself. */
  lemma {:induction false} HalveBounds(n: int, k: nat)
    requires n >= 0
    ensures 0 <= Halve(n, k) <= n
  {
    if k > 0 {
      HalveBounds(n / 2, k - 1);
    }
  }

  /** Halving a power of two at most log2 times divides it exactly. */
  lemma {:induction false} HalvePowerOfTwo(n: int, k: nat)
    requires IsPowerOfTwo(n) && k <= Log2(n)
    ensures IsPowerOfTwo(Halve(n, k)) && Log2(Halve(n, k)) == Log2(n) - k
    ensures Pow2(k) * Halve(n, k) == n
  {
    if k > 0 {
      HalvePowerOfTwo(n / 2, k - 1);
    }
  }

  /**
   * Shifting an int power of two n right by at most log2(n) divides it
   * exactly and leaves a power of two, so at least 1.
   */
  lemma ShiftRightPowerOfTwo(n: int, s: int)
    requires IsPowerOfTwo(n) && n <= MaxInt32
    requires 0 <= s <= Log2(n)
    ensures ShiftRight(n, s) == Pow2(Log2(n) - s) >= 1
    ensures Pow2(s) * ShiftRight(n, s) == n
  {
    Log2Int32(n);
    assert s % 32 == s;
    HalvePowerOfTwo(n, s);
    PowerOfTwoLog2(Halve(n, s));
  }
}
