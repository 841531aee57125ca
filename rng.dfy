/**
 * The seeded pseudo-random generator of lattices.js:35-43: a linear
 * congruential generator modulo the prime 7778777. RNG returns a closure over
 * the mutable state `curr`; here that closure is an object whose Next method
 * updates the field. Arithmetic follows JavaScript: `%` takes the sign of the
 * dividend, and the default bound `1<<31` is the 32-bit integer -2^31.
 */
module Rng {
  import opened Utils

  const Base: int := 257
  const BigPrime: int := 7778777

  /** JavaScript's `x % m` on integers: truncating, with the sign of x. */
  function JsRem(x: int, m: int): (r: int)
    requires m != 0
    ensures Abs(r) < Abs(m)
    ensures x >= 0 ==> r >= 0 && (x < Abs(m) ==> r == x)
    ensures x <= 0 ==> r <= 0
  {
    if x >= 0 then x % Abs(m) else -((-x) % Abs(m))
  }

  /** JavaScript's `1 << k`: the shift count is taken modulo 32 and the result is a 32-bit integer. */
  function Shl1(k: int): (r: int)
    ensures k % 32 < 31 ==> r == Pow2(k % 32)
    ensures k % 32 == 31 ==> r == -0x8000_0000
  {
    var s := k % 32;
    if s == 31 then -0x8000_0000 else Pow2(s)
  }

  /** The default bound `1<<31` of lattices.js:35. */
  const DefaultMax: int := Shl1(31)

  /** One update of the state (lattices.js:39). */
  function Step(curr: int): int {
    JsRem(curr * Base + 1, BigPrime)
  }

  /** The state after k calls from seed. */
  function State(seed: int, k: nat): int {
    if k == 0 then seed else Step(State(seed, k - 1))
  }

  /** The value the k-th call returns (lattices.js:40). */
  function Output(seed: int, maxValue: int, k: nat): int
    requires maxValue != 0
  {
    JsRem(State(seed, k), maxValue)
  }

  /** From a non-negative seed, every state after the first call is in 0..BigPrime-1. */
  lemma {:induction false} StateBound(seed: int, k: nat)
    requires seed >= 0 && k >= 1
    ensures 0 <= State(seed, k) < BigPrime
  {
    if k > 1 {
      StateBound(seed, k - 1);
    }
  }

  /** From a non-negative seed, each output is below both BigPrime and the bound. */
  lemma OutputBound(seed: int, maxValue: int, k: nat)
    requires seed >= 0 && k >= 1 && maxValue != 0
    ensures 0 <= Output(seed, maxValue, k) < BigPrime
    ensures Output(seed, maxValue, k) < Abs(maxValue)
  {
    StateBound(seed, k);
  }

  /** With the default bound the outputs are the states themselves. */
  lemma DefaultOutput(seed: int, k: nat)
    requires seed >= 0 && k >= 1
    ensures Output(seed, DefaultMax, k) == State(seed, k)
  {
    StateBound(seed, k);
  }

  /** The generator returned by RNG(seed, maxValue). */
  class Generator {
    var curr: int
    const maxValue: int
    ghost const seed: int
    ghost var calls: nat

    /** curr is the state after the calls made so far: the outputs depend on seed alone. */
    ghost predicate Valid()
      reads this
    {
      maxValue != 0 && curr == State(seed, calls)
    }

    /** lattices.js:35-37, with the seed given. */
    constructor (seed: int, maxValue: int)
      requires maxValue != 0
      ensures Valid() && this.seed == seed && this.maxValue == maxValue && calls == 0
    {
      curr := seed;
      this.maxValue := maxValue;
      this.seed := seed;
      calls := 0;
    }

    /** lattices.js:38-41: advance the state and return it modulo maxValue. */
    method Next() returns (r: int)
      requires Valid()
      modifies this
      ensures Valid() && calls == old(calls) + 1
      ensures curr == Step(old(curr))
      ensures r == Output(seed, maxValue, calls)
    {
      curr := (curr * Base + 1);
      curr := JsRem(curr, BigPrime);
      calls := calls + 1;
      r := JsRem(curr, maxValue);
    }
  }
}
