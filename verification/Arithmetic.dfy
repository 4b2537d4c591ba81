/** Machine integers and the few nonlinear facts the model needs. */
module Arithmetic {
  const TWO_64: int := 0x1_0000_0000_0000_0000
  const TWO_32: int := 0x1_0000_0000
  const U64_MAX: int := TWO_64 - 1

  type u64 = x: int | 0 <= x < TWO_64
  type u32 = x: int | 0 <= x < TWO_32

  function Pow2(k: nat): nat {
    if k == 0 then 1 else 2 * Pow2(k - 1)
  }

  predicate IsPowerOfTwo(n: nat) {
    n == 1 || (n > 1 && n % 2 == 0 && IsPowerOfTwo(n / 2))
  }

  lemma {:induction false} PowerExponent(n: nat) returns (k: nat)
    requires IsPowerOfTwo(n)
    ensures n == Pow2(k)
    decreases n
  {
    if n == 1 {
      k := 0;
    } else {
      k := PowerExponent(n / 2);
      k := k + 1;
    }
  }

  /** The powers of two are exactly the n that halve down to one. */
  lemma {:induction false} PowerOfTwoIff(n: nat)
    ensures IsPowerOfTwo(n) <==> exists k: nat :: n == Pow2(k)
  {
    if IsPowerOfTwo(n) {
      var k := PowerExponent(n);
    }
    if k: nat :| n == Pow2(k) {
      PowerHalves(k);
    }
  }

  lemma {:induction false} PowerHalves(k: nat)
    ensures IsPowerOfTwo(Pow2(k))
  {
    if k > 0 {
      PowerHalves(k - 1);
      Pow2Positive(k - 1);
    }
  }

  /** x rounded up to a whole number of units, as `div_ceil` times the unit. */
  function RoundUp(x: nat, unit: nat): nat
    requires unit > 0
  {
    (x + unit - 1) / unit * unit
  }

  function Min(a: int, b: int): int { if a < b then a else b }

  function Max(a: int, b: int): int { if a < b then b else a }

  lemma MulMod(q: int, a: int)
    requires a > 0
    ensures (q * a) % a == 0
  {
    DivModUnique(q * a, a, q, 0);
  }

  lemma DivModUnique(x: int, a: int, q: int, r: int)
    requires a > 0 && x == q * a + r && 0 <= r < a
    ensures x / a == q && x % a == r
  {
    var q', r' := x / a, x % a;
    assert x == q' * a + r';
    assert (q - q') * a == r' - r;
    if q > q' {
      MulAtLeast(q - q', a);
    } else if q < q' {
      MulAtLeast(q' - q, a);
    }
  }

  lemma MulAtLeast(q: int, a: int)
    requires q >= 1 && a > 0
    ensures q * a >= a
  {
  }

  lemma AlignedSum(x: int, y: int, a: int)
    requires a > 0 && x % a == 0 && y % a == 0
    ensures (x + y) % a == 0 && (x - y) % a == 0
  {
    var p, q := x / a, y / a;
    assert x == p * a && y == q * a;
    assert x + y == (p + q) * a;
    MulMod(p + q, a);
    assert x - y == (p - q) * a;
    MulMod(p - q, a);
  }

  /** RoundUp is the least multiple of the unit that is at least x. */
  lemma RoundUpBounds(x: nat, unit: nat)
    requires unit > 0
    ensures RoundUp(x, unit) % unit == 0
    ensures x <= RoundUp(x, unit) < x + unit
  {
    var q := (x + unit - 1) / unit;
    MulMod(q, unit);
    assert x + unit - 1 == q * unit + (x + unit - 1) % unit;
  }

  lemma Pow2Sum(j: nat, k: nat)
    ensures Pow2(j + k) == Pow2(j) * Pow2(k)
    decreases j
  {
    if j > 0 {
      Pow2Sum(j - 1, k);
      assert Pow2(j + k) == 2 * Pow2(j - 1 + k);
    }
  }

  lemma Pow2Monotone(j: nat, k: nat)
    requires j <= k
    ensures 1 <= Pow2(j) <= Pow2(k)
  {
    Pow2Positive(j);
    if j < k {
      Pow2Monotone(j, k - 1);
    }
  }

  lemma Pow2Positive(k: nat)
    ensures Pow2(k) >= 1
  {
  }

  lemma Pow2Of64()
    ensures Pow2(64) == TWO_64 && Pow2(8) == 256 && Pow2(7) == 128
  {
    assert Pow2(8) == 256;
    Pow2Sum(8, 8);
    assert Pow2(16) == 65536;
    Pow2Sum(16, 16);
    Pow2Sum(32, 32);
  }

  /** A power of two that fits in a u64 divides 2^64. */
  lemma PowerDivides(a: u64)
    requires IsPowerOfTwo(a)
    ensures a > 0 && TWO_64 % a == 0
  {
    var k := PowerExponent(a);
    Pow2Of64();
    Pow2Positive(k);
    if k >= 64 {
      Pow2Monotone(64, k);
    }
    Pow2Sum(64 - k, k);
    MulMod(Pow2(64 - k), a);
  }

  /** Two distinct multiples of a differ by at least a. */
  lemma AlignedGap(x: int, y: int, a: int)
    requires a > 0 && x % a == 0 && y % a == 0 && x < y
    ensures x + a <= y
  {
    AlignedSum(y, x, a);
    var q := (y - x) / a;
    assert y - x == q * a;
    if q >= 1 {
      MulAtLeast(q, a);
    }
  }
}
