/**
 * The scalar side of the .NET runtime that the tracer calls: the double
 * constants it uses, System.Math (Abs, Max, Clamp, Sqrt, Tan, Sin, Cos, PI)
 * and System.Random.  Doubles are modelled as reals; the transcendental
 * functions and the random generator are parameters (see Runtime), and the
 * only facts assumed about the square root are the ones in SqrtLaw, which
 * every lemma that needs them states as a precondition.
 */
module Numerics {

  /** 2 to the power n, used to write Double.Epsilon exactly. */
  function Pow2(n: nat): (r: nat)
    ensures r >= 1
  {
    if n == 0 then 1 else 2 * Pow2(n - 1)
  }

  /** Double.Epsilon: the smallest positive (subnormal) double, 2^-1074. */
  const DoubleEpsilon: real := 1.0 / (Pow2(1074) as real)

  lemma DoubleEpsilonPositive()
    ensures DoubleEpsilon > 0.0
  {
  }

  /**
   * Division of doubles.  IEEE-754 gives an infinity or NaN for a zero
   * divisor; reals have no such values, so the model returns 0 there.
   */
  function Div(a: real, b: real): (q: real)
    ensures b != 0.0 ==> q * b == a
    ensures b == 0.0 ==> q == 0.0
  {
    if b == 0.0 then 0.0 else a / b
  }

  /** Math.Abs. */
  function Abs(x: real): (r: real)
    ensures r >= 0.0
    ensures r == x || r == -x
  {
    if x < 0.0 then -x else x
  }

  /** Math.Max. */
  function Max(a: real, b: real): (r: real)
    ensures r >= a && r >= b
    ensures r == a || r == b
  {
    if a >= b then a else b
  }

  /** Math.Clamp; .NET throws when lo > hi, so callers must not do that. */
  function Clamp(v: real, lo: real, hi: real): (r: real)
    requires lo <= hi
    ensures lo <= r <= hi
    ensures lo <= v <= hi ==> r == v
    ensures v < lo ==> r == lo
    ensures v > hi ==> r == hi
  {
    if v < lo then lo else if v > hi then hi else v
  }

  /** Math.Sqrt at x: for non-negative x, the non-negative root. */
  ghost predicate RootAt(sqrt: real -> real, x: real)
  {
    x >= 0.0 ==> sqrt(x) >= 0.0 && sqrt(x) * sqrt(x) == x
  }

  /**
   * What the model assumes of Math.Sqrt: it is the root everywhere on the
   * non-negative reals.  Proofs take the instances they need through Root.
   */
  ghost predicate SqrtLaw(sqrt: real -> real)
  {
    forall x :: RootAt(sqrt, x)
  }

  lemma Root(sqrt: real -> real, x: real)
    requires SqrtLaw(sqrt)
    requires x >= 0.0
    ensures sqrt(x) >= 0.0 && sqrt(x) * sqrt(x) == x
  {
    assert RootAt(sqrt, x);
  }

  lemma SqrtPositive(sqrt: real -> real, x: real)
    requires SqrtLaw(sqrt)
    requires x > 0.0
    ensures sqrt(x) > 0.0
  {
    Root(sqrt, x);
  }

  /**
   * The host's numeric services: System.Math's transcendental functions and
   * Math.PI, and the random generator.  `nextDouble(path, k)` is the k-th value
   * drawn from the `new Random()` that the RayTrace call identified by `path`
   * creates (a call's children extend its path by one index).
   */
  datatype Runtime = Runtime(
    sqrt: real -> real,
    tan: real -> real,
    sin: real -> real,
    cos: real -> real,
    pi: real,
    nextDouble: (seq<int>, nat) -> real)
}
