/** Unsigned integer arithmetic of sim.c: the 64-bit address type, the bitwise
    operators the simulator applies to addresses (`&`, `|`, `<<`, `>>`), the
    integer base-2 logarithm used to size the offset field, and the
    power-of-two test applied to the configured page size.

    The bitwise operators are defined on naturals one bit at a time, which is
    exactly their meaning on unsigned C integers as long as no result leaves
    the integer's width; the lemmas below show it never does here. */
module Bits {

  /** `uint64_t` */
  const Two64: nat := 0x1_0000_0000_0000_0000
  type uint64 = x: nat | x < Two64

  /** Largest positive value of a C `int` plus one. */
  const Two31: nat := 0x8000_0000

  /** A C `int`. */
  type int32 = x: int | -0x8000_0000 <= x < 0x8000_0000

  /** 2 to the power `k`. */
  function Pow2(k: nat): (r: nat)
    ensures r >= 1
  {
    if k == 0 then 1 else 2 * Pow2(k - 1)
  }

  /** The mask of the low `k` bits, `2^k - 1`. */
  function Mask(k: nat): (r: nat) {
    Pow2(k) - 1
  }

  /** `a << k` on an unsigned integer wide enough to hold the result. */
  function Shl(a: nat, k: nat): (r: nat) {
    if k == 0 then a else 2 * Shl(a, k - 1)
  }

  /** `a >> k` on an unsigned integer. */
  function Shr(a: nat, k: nat): (r: nat) {
    if k == 0 then a else Shr(a / 2, k - 1)
  }

  /** `a & b` on unsigned integers, lowest bit first. */
  function BitAnd(a: nat, b: nat): (r: nat)
    decreases a
  {
    if a == 0 || b == 0 then 0
    else 2 * BitAnd(a / 2, b / 2) + (if a % 2 == 1 && b % 2 == 1 then 1 else 0)
  }

  /** `a | b` on unsigned integers, lowest bit first. */
  function BitOr(a: nat, b: nat): (r: nat)
    decreases a
  {
    if a == 0 then b
    else if b == 0 then a
    else 2 * BitOr(a / 2, b / 2) + (if a % 2 == 1 || b % 2 == 1 then 1 else 0)
  }

  /** A positive integer is a power of two when halving it repeatedly
      reaches 1 without meeting an odd number. */
  predicate IsPowerOfTwo(n: int)
    decreases if n < 0 then 0 else n
  {
    n == 1 || (n > 1 && n % 2 == 0 && IsPowerOfTwo(n / 2))
  }

  /** `(1ULL << k)` is `2^k`, so `(1ULL << k) - 1` is the mask of the low `k` bits. */
  lemma {:induction false} ShlOneIsPow2(k: nat)
    ensures Shl(1, k) == Pow2(k)
    ensures Shl(1, k) - 1 == Mask(k)
  {
    if k > 0 {
      ShlOneIsPow2(k - 1);
    }
  }

  /** `a << k` multiplies by `2^k`. */
  lemma {:induction false} ShlIsProduct(a: nat, k: nat)
    ensures Shl(a, k) == a * Pow2(k)
  {
    if k > 0 {
      ShlIsProduct(a, k - 1);
    }
  }

  lemma {:induction false} Pow2Add(j: nat, k: nat)
    ensures Pow2(j + k) == Pow2(j) * Pow2(k)
  {
    if k > 0 {
      Pow2Add(j, k - 1);
    }
  }

  /** `2^31`, one more than the largest C `int`. */
  lemma Pow2ThirtyOne()
    ensures Pow2(31) == Two31
  {
    assert Pow2(10) == 1024;
    Pow2Add(10, 10);
    Pow2Add(20, 11);
  }

  /** Every `2^k` passes the power-of-two predicate. */
  lemma {:induction false} Pow2IsPowerOfTwo(k: nat)
    ensures IsPowerOfTwo(Pow2(k))
  {
    if k > 0 {
      Pow2IsPowerOfTwo(k - 1);
      assert Pow2(k) / 2 == Pow2(k - 1);
    }
  }

  lemma {:induction false} Pow2Monotone(j: nat, k: nat)
    requires j <= k
    ensures Pow2(j) <= Pow2(k)
  {
    if j < k {
      Pow2Monotone(j, k - 1);
    }
  }

  lemma Pow2Below(j: nat, k: nat)
    requires Pow2(j) < Pow2(k)
    ensures j < k
  {
    if j >= k {
      Pow2Monotone(k, j);
    }
  }

  /** The floor of the base-2 logarithm is unique: two exponents that both
      bracket `n` are equal. */
  lemma FloorLog2Unique(n: nat, b: nat, c: nat)
    requires Pow2(b) <= n < Pow2(b + 1)
    requires Pow2(c) <= n < Pow2(c + 1)
    ensures b == c
  {
    if b < c {
      Pow2Monotone(b + 1, c);
    } else if c < b {
      Pow2Monotone(c + 1, b);
    }
  }

  /** For a power of two, the bracketing exponent is exact: `2^b == n`. */
  lemma {:induction false} PowerOfTwoBracket(n: nat, b: nat)
    requires IsPowerOfTwo(n)
    requires Pow2(b) <= n < Pow2(b + 1)
    ensures Pow2(b) == n
  {
    if n > 1 {
      assert b > 0;
      PowerOfTwoBracket(n / 2, b - 1);
    }
  }

  /** Shifting by one more bit halves the previous shift. */
  lemma {:induction false} ShrStep(a: nat, k: nat)
    ensures Shr(a, k + 1) == Shr(a, k) / 2
  {
    if k > 0 {
      ShrStep(a / 2, k - 1);
    }
  }

  /** `a >> k == 1` exactly brackets `a` between `2^k` and `2^(k+1)`. */
  lemma {:induction false} ShrIsOne(a: nat, k: nat)
    requires Shr(a, k) == 1
    ensures Pow2(k) <= a < Pow2(k + 1)
  {
    if k > 0 {
      ShrIsOne(a / 2, k - 1);
    }
  }

  /** `log2_int`: halves `n` until it is at most 1, counting the halvings.
      For `n >= 1` the result is the floor of the base-2 logarithm; for
      `n <= 1` (including the negative values a C `int` can hold) the loop
      does not run and the result is 0. */
  method Log2Int(n: int) returns (bits: nat)
    ensures n <= 1 ==> bits == 0
    ensures n >= 1 ==> Pow2(bits) <= n < Pow2(bits + 1)
    ensures IsPowerOfTwo(n) ==> Pow2(bits) == n
  {
    var m := n;
    bits := 0;
    while m > 1
      invariant n <= 1 ==> m == n && bits == 0
      invariant n >= 1 ==> 1 <= m == Shr(n, bits)
      decreases m
    {
      ShrStep(n, bits);
      m := m / 2;
      bits := bits + 1;
    }
    if n >= 1 {
      ShrIsOne(n, bits);
    }
    if IsPowerOfTwo(n) {
      PowerOfTwoBracket(n, bits);
    }
  }

  /** The page-size check of `main`, `(n & (n - 1)) == 0`, accepts a positive
      `n` exactly when it is a power of two. */
  lemma {:induction false} PowerOfTwoTest(n: nat)
    requires n >= 1
    ensures BitAnd(n, n - 1) == 0 <==> IsPowerOfTwo(n)
  {
    if n == 1 {
    } else if n % 2 == 1 {
      // the low bit of n - 1 is clear and the upper bits agree: n & (n-1) == n - 1
      AndSelf(n / 2);
      assert (n - 1) / 2 == n / 2;
    } else {
      PowerOfTwoTest(n / 2);
      assert (n - 1) / 2 == n / 2 - 1;
    }
  }

  lemma {:induction false} AndSelf(a: nat)
    ensures BitAnd(a, a) == a
  {
    if a > 0 {
      AndSelf(a / 2);
    }
  }
}
