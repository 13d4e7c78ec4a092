/** The engine's single source of randomness: a 32-bit linear congruential
    generator whose state is threaded explicitly through every caller.

    `next` returns `state / 2^32`; the source computes it as a double, which
    is exact because the state is below 2^32, so it is modelled here as an
    exact `real`. */
module Rng {

  const MODULUS: int := 0x1_0000_0000
  const MULTIPLIER: int := 1664525
  const INCREMENT: int := 1013904223

  /** An unsigned 32-bit value. */
  type Word = n: int | 0 <= n < MODULUS

  datatype Generator = Generator(state: Word)

  /** One LCG step on the raw state. */
  function Step(s: Word): Word
  {
    (MULTIPLIER * s + INCREMENT) % MODULUS
  }

  /** `n` successive steps. */
  function Advance(s: Word, n: nat): Word
    decreases n
  {
    if n == 0 then s else Advance(Step(s), n - 1)
  }

  /** The constructor: the seed reduced to an unsigned 32-bit value, so the
      state is congruent to the seed modulo 2^32, negative seeds included. */
  function Create(seed: int): (g: Generator)
    ensures (seed - g.state) % MODULUS == 0
  {
    Generator(seed % MODULUS)
  }

  /** Advances the state one step and returns it scaled into [0, 1). */
  function Next(g: Generator): (r: (real, Generator))
    ensures r.1.state == Advance(g.state, 1)
    ensures 0.0 <= r.0 < 1.0
    ensures r.0 < 0.5 <==> r.1.state < MODULUS / 2
    ensures r.0 * MODULUS as real == r.1.state as real
  {
    var s := Step(g.state);
    (s as real / MODULUS as real, Generator(s))
  }

  /** The largest integer not exceeding a / b, computed on reals, agrees with
      integer division (which rounds down for a positive divisor). */
  lemma FloorOfQuotient(a: int, b: int)
    requires b > 0
    ensures (a as real / b as real).Floor == a / b
  {
    var q, m := a / b, a % b;
    assert a == q * b + m;
    assert a as real / b as real == q as real + m as real / b as real;
    assert 0.0 <= m as real / b as real < 1.0;
  }

  /** The scaled fraction f * n, with f = s / 2^32, is (s * n) / 2^32. */
  lemma ScaledFraction(f: real, s: int, n: int)
    requires f * MODULUS as real == s as real
    ensures f * n as real == (s * n) as real / MODULUS as real
  {
    assert f == s as real / MODULUS as real;
  }

  /** `int(min, max)`: floor(next() * (max - min + 1)) + min, inclusive on both
      ends when min <= max. The source does not guard max < min, and neither
      does the model: the same formula is evaluated. */
  function Int(g: Generator, min: int, max: int): (r: (int, Generator))
    ensures r.1 == Next(g).1
    ensures r.0 == min + (r.1.state * (max - min + 1)) / MODULUS
    ensures min <= max ==> min <= r.0 <= max
  {
    var (f, g') := Next(g);
    var n := max - min + 1;
    ScaledFraction(f, g'.state, n);
    FloorOfQuotient(g'.state * n, MODULUS);
    if min <= max then ScaledIndexBound(g'.state, n); ((f * n as real).Floor + min, g')
    else ((f * n as real).Floor + min, g')
  }

  /** A 32-bit state scaled onto n buckets lands on one of them. */
  lemma ScaledIndexBound(s: Word, n: int)
    requires n > 0
    ensures 0 <= (s * n) / MODULUS < n
  {
    assert 0 <= s * n;
    assert s * n < MODULUS * n by {
      assert (MODULUS - s) * n > 0;
    }
  }

  /** `pick(items)`: the element at `int(0, |items| - 1)`. The source returns
      `undefined` on an empty array; every caller guards against that. */
  function Pick<T>(g: Generator, items: seq<T>): (r: (T, Generator))
    requires |items| > 0
    ensures r.1 == Next(g).1
    ensures 0 <= (r.1.state * |items|) / MODULUS < |items|
    ensures r.0 == items[(r.1.state * |items|) / MODULUS]
  {
    var (i, g') := Int(g, 0, |items| - 1);
    (items[i], g')
  }

  /** A draw on the generator, as a caller issues it. */
  datatype Call = NextCall | IntCall(min: int, max: int)

  datatype Output = Fraction(f: real) | Integer(n: int)

  /** Replays a sequence of draws from `g`, collecting what each returns. */
  function Run(g: Generator, calls: seq<Call>): (r: (seq<Output>, Generator))
    decreases |calls|
  {
    if |calls| == 0 then ([], g)
    else
      var (out, g') := match calls[0]
        case NextCall => var (f, g1) := Next(g); (Fraction(f), g1)
        case IntCall(lo, hi) => var (n, g1) := Int(g, lo, hi); (Integer(n), g1);
      var (rest, g'') := Run(g', calls[1..]);
      ([out] + rest, g'')
  }

  /** Every draw costs exactly one step, so a replay ends at the state reached
      by as many steps as there were calls, whatever their arguments, and
      yields one output per call. */
  lemma {:induction false} RunAdvancesPerCall(g: Generator, calls: seq<Call>)
    ensures |Run(g, calls).0| == |calls|
    ensures Run(g, calls).1.state == Advance(g.state, |calls|)
    decreases |calls|
  {
    if |calls| > 0 {
      RunAdvancesPerCall(Generator(Step(g.state)), calls[1..]);
    }
  }

  /** Replays from two seeds that agree modulo 2^32 coincide. */
  lemma SeedsAgreeModulo(seed1: int, seed2: int, calls: seq<Call>)
    requires (seed1 - seed2) % MODULUS == 0
    ensures Create(seed1) == Create(seed2)
    ensures Run(Create(seed1), calls) == Run(Create(seed2), calls)
  {
    var a, b := seed1 % MODULUS, seed2 % MODULUS;
    assert seed1 == seed1 / MODULUS * MODULUS + a;
    assert seed2 == seed2 / MODULUS * MODULUS + b;
    var k := (seed1 - seed2) / MODULUS;
    assert seed1 - seed2 == k * MODULUS;
    assert a - b == (k - seed1 / MODULUS + seed2 / MODULUS) * MODULUS;
  }
}
