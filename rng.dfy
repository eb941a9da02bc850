/**
 * The opponent's pseudo-random generator: a 64-bit linear congruential
 * generator whose arithmetic wraps modulo 2^64, as Rust's `wrapping_mul`
 * and `wrapping_add` on `u64` do.
 */
module Rng {

  const MODULUS: nat := 0x1_0000_0000_0000_0000

  /** Rust's `u64`. */
  type U64 = n: nat | n < MODULUS

  const MULTIPLIER: U64 := 6364136223846793005
  const INCREMENT: U64 := 1442695040888963407

  /** `u64::wrapping_mul`. */
  function WrappingMul(a: U64, b: U64): U64 {
    (a * b) % MODULUS
  }

  /** `u64::wrapping_add`. */
  function WrappingAdd(a: U64, b: U64): U64 {
    (a + b) % MODULUS
  }

  /** The state after one draw; a draw returns this new state. */
  function NextState(s: U64): (r: U64)
    ensures r == (s * MULTIPLIER + INCREMENT) % MODULUS
  {
    ModAddLeft(s * MULTIPLIER, INCREMENT, MODULUS);
    WrappingAdd(WrappingMul(s, MULTIPLIER), INCREMENT)
  }

  /** Reducing the left summand first does not change the sum's residue. */
  lemma ModAddLeft(x: nat, y: nat, n: nat)
    requires n > 0
    ensures (x % n + y) % n == (x + y) % n
  {
    var q, r := x / n, x % n;
    assert x == q * n + r;
    var q2, r2 := (r + y) / n, (r + y) % n;
    assert r + y == q2 * n + r2;
    assert x + y == (q + q2) * n + r2;
    DivModUnique(x + y, q + q2, r2, n);
  }

  /** The remainder is the only one in [0, n) that splits `a` this way. */
  lemma DivModUnique(a: nat, q: int, r: int, n: nat)
    requires n > 0 && 0 <= r < n && a == q * n + r
    ensures a % n == r
  {
    var q', r' := a / n, a % n;
    assert a == q' * n + r';
    var d := q - q';
    assert d * n == q * n - q' * n;
    if d >= 1 {
      MulAtLeast(d, n);
    } else if d <= -1 {
      MulAtLeast(-d, n);
    }
  }

  lemma MulAtLeast(k: int, n: nat)
    requires k >= 1
    ensures k * n >= n
  {
    assert k * n == (k - 1) * n + n;
  }

  /** The first value drawn from seed 1. */
  lemma FirstDrawFromSeedOne()
    ensures NextState(1) == 7806831264735756412
    ensures NextState(1) % 8 == 4
  {
  }

  class SimpleRng {
    var state: U64

    constructor (seed: U64)
      ensures state == seed
    {
      state := seed;
    }

    /** Advances the state once and returns the new state. */
    method Next() returns (r: U64)
      modifies this
      ensures state == NextState(old(state))
      ensures r == state
    {
      state := WrappingAdd(WrappingMul(state, MULTIPLIER), INCREMENT);
      r := state;
    }

    /** A value in [min, max] taken from exactly one draw. */
    method RandRange(min: nat, max: nat) returns (r: nat)
      requires min <= max
      modifies this
      ensures state == NextState(old(state))
      ensures min <= r <= max
      ensures r - min == state % (max - min + 1)
    {
      var x := Next();
      r := x % (max - min + 1) + min;
    }
  }
}
