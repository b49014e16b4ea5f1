/** Bit-level view of the C++ `int` masks of the board-state codec.

    Integers are unbounded. On Dafny's `int`, `x / 2` rounds toward negative
    infinity, which is exactly the arithmetic shift `x >> 1`, and `x % 2` is
    never negative, so it is the lowest two's-complement bit `x & 0x01`. With
    these two operations a negative `int` reads bit for bit like the C++ value. */
module Bits {

  /** `1 << k` as a mathematical integer. */
  function Pow2(k: nat): (p: nat)
    ensures p >= 1
  {
    if k == 0 then 1 else 2 * Pow2(k - 1)
  }

  /** Euclidean division is unique: a quotient and a remainder in range are
      the ones `/` and `%` give. */
  lemma DivisionUnique(x: int, d: int, q: int, r: int)
    requires d > 0 && 0 <= r < d && x == q * d + r
    ensures x / d == q && x % d == r
  {
    var k := x / d - q;
    assert k * d == r - x % d;
    MultipleBound(k, d);
  }

  /** A non-zero multiple of d is at least d away from 0. */
  lemma MultipleBound(k: int, d: int)
    requires d > 0
    ensures k >= 1 ==> k * d >= d
    ensures k <= -1 ==> k * d <= -d
  {
  }

  /** Halving and then dividing by p is dividing by 2p, rounding down. */
  lemma HalveThenDivide(x: int, p: int)
    requires p >= 1
    ensures (x / 2) / p == x / (2 * p)
  {
    var q, r := (x / 2) / p, (x / 2) % p;
    assert x == q * (2 * p) + (2 * r + x % 2);
    DivisionUnique(x, 2 * p, q, 2 * r + x % 2);
  }

  /** `x >> k`, one arithmetic shift at a time. */
  function ShiftRight(x: int, k: nat): int
    decreases k
  {
    if k == 0 then x else ShiftRight(x / 2, k - 1)
  }

  /** k shifts divide by 2^k, rounding toward negative infinity, on negative
      values as well. */
  lemma {:induction false} ShiftRightIsDivision(x: int, k: nat)
    ensures ShiftRight(x, k) == x / Pow2(k)
    decreases k
  {
    if k > 0 {
      ShiftRightIsDivision(x / 2, k - 1);
      HalveThenDivide(x, Pow2(k - 1));
    }
  }

  /** Bit k of x, that is `(x >> k) & 0x01`. */
  predicate Bit(x: int, k: nat)
  {
    ShiftRight(x, k) % 2 == 1
  }

  /** The values of a non-negative 32-bit C++ `int`: 0 .. 2^31 - 1. */
  predicate NonNegInt32(x: int)
  {
    0 <= x < Pow2(31)
  }

  /** Negating bit k as `dataChanged` does: when `x & (1 << k)` is set,
      `x &= ~(1 << k)` clears it, which subtracts 2^k; otherwise
      `x |= (1 << k)` sets it, which adds 2^k. */
  function Toggle(x: int, k: nat): int
  {
    if Bit(x, k) then x - Pow2(k) else x + Pow2(k)
  }

  /** Shifting once more is halving the shifted value. */
  lemma {:induction false} ShiftRightStep(x: int, k: nat)
    ensures ShiftRight(x, k + 1) == ShiftRight(x, k) / 2
    decreases k
  {
    if k > 0 {
      ShiftRightStep(x / 2, k - 1);
    }
  }

  /** Bit k of x, as `(x >> k) & 0x01` computes it, is the parity of
      x / 2^k. */
  lemma BitByDivision(x: int, k: nat)
    ensures Bit(x, k) <==> (x / Pow2(k)) % 2 == 1
  {
    ShiftRightIsDivision(x, k);
  }

  /** Toggling bit k + 1 of x is toggling bit k of x / 2 and putting the
      lowest bit of x back. */
  lemma ToggleStep(x: int, k: nat)
    requires k > 0
    ensures Toggle(x, k) == 2 * Toggle(x / 2, k - 1) + x % 2
  {
    assert Bit(x, k) == Bit(x / 2, k - 1);
    assert Pow2(k) == 2 * Pow2(k - 1);
  }

  /** Toggle flips exactly bit k: bit j of the result differs from bit j of
      x if and only if j == k. */
  lemma {:induction false} ToggleBits(x: int, k: nat, j: nat)
    ensures Bit(Toggle(x, k), j) == (Bit(x, j) != (j == k))
    decreases k
  {
    var t := Toggle(x, k);
    if k == 0 {
      if j > 0 {
        assert t / 2 == x / 2;
        assert Bit(t, j) == Bit(t / 2, j - 1);
        assert Bit(x, j) == Bit(x / 2, j - 1);
      }
    } else {
      ToggleStep(x, k);
      var u := Toggle(x / 2, k - 1);
      assert t / 2 == u && t % 2 == x % 2;
      if j > 0 {
        ToggleBits(x / 2, k - 1, j - 1);
        assert Bit(t, j) == Bit(t / 2, j - 1);
        assert Bit(x, j) == Bit(x / 2, j - 1);
      }
    }
  }

  /** The same statement for every bit at once. */
  lemma ToggleAllBits(x: int, k: nat)
    ensures forall j: nat :: Bit(Toggle(x, k), j) == (Bit(x, j) != (j == k))
  {
    forall j: nat
      ensures Bit(Toggle(x, k), j) == (Bit(x, j) != (j == k))
    {
      ToggleBits(x, k, j);
    }
  }

  /** Negating the same bit twice restores the value. */
  lemma ToggleInvolution(x: int, k: nat)
    ensures Toggle(Toggle(x, k), k) == x
  {
    ToggleBits(x, k, k);
  }

  /** Toggling a bit below n keeps a value inside 0 .. 2^n - 1. */
  lemma {:induction false} ToggleRange(x: int, k: nat, n: nat)
    requires 0 <= x < Pow2(n)
    requires k < n
    ensures 0 <= Toggle(x, k) < Pow2(n)
    decreases k
  {
    assert Pow2(n) == 2 * Pow2(n - 1);
    if k > 0 {
      ToggleStep(x, k);
      ToggleRange(x / 2, k - 1, n - 1);
    }
  }

  /** With k < 31 a toggle keeps a non-negative 32-bit `int` non-negative and
      in range, so `1 << k` never reaches the sign bit. */
  lemma ToggleNonNegInt32(x: int, k: nat)
    requires NonNegInt32(x)
    requires k < 31
    ensures NonNegInt32(Toggle(x, k))
  {
    ToggleRange(x, k, 31);
  }
}
