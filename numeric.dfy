/** Kotlin's `Double`, as far as the modelled code depends on it. A finite double is
    a `real` (rounding and overflow are not modelled); the IEEE special values that a
    division by zero or the average of an empty list produce are kept apart, because
    the source tests for them (`defaultWhenNotFinite`). */
module Numeric {

  datatype Double = Finite(value: real) | NaN | PositiveInfinity | NegativeInfinity

  /** The smaller of two integers. */
  function Min(a: int, b: int): int
  {
    if a <= b then a else b
  }

  /** `defaultWhenNotFinite(default)`: a non-finite double is replaced by `default`. */
  function DefaultWhenNotFinite(d: Double, default: real): real
  {
    if d.Finite? then d.value else default
  }

  /** The quotient of two finite doubles, `a / b`. */
  function Divide(a: real, b: real): (r: Double)
    ensures r.Finite? <==> b != 0.0
    ensures r.Finite? ==> r.value * b == a
    ensures b == 0.0 && a == 0.0 ==> r == NaN
  {
    if b != 0.0 then Finite(a / b)
    else if a == 0.0 then NaN
    else if a > 0.0 then PositiveInfinity
    else NegativeInfinity
  }

  /** IEEE addition `a + b`. */
  function Add(a: Double, b: Double): Double
  {
    match (a, b)
    case (Finite(x), Finite(y)) => Finite(x + y)
    case (NaN, _) => NaN
    case (_, NaN) => NaN
    case (PositiveInfinity, NegativeInfinity) => NaN
    case (NegativeInfinity, PositiveInfinity) => NaN
    case (PositiveInfinity, _) => PositiveInfinity
    case (NegativeInfinity, _) => NegativeInfinity
    case (Finite(_), other) => other
  }

  /** IEEE multiplication `a * k` by a finite factor. */
  function Scale(a: Double, k: real): Double
  {
    match a
    case Finite(x) => Finite(x * k)
    case NaN => NaN
    case PositiveInfinity => if k > 0.0 then PositiveInfinity else if k < 0.0 then NegativeInfinity else NaN
    case NegativeInfinity => if k > 0.0 then NegativeInfinity else if k < 0.0 then PositiveInfinity else NaN
  }

  /** IEEE division `a / n` by a positive finite divisor. */
  function DivideBy(a: Double, n: real): Double
    requires n > 0.0
  {
    match a
    case Finite(x) => Finite(x / n)
    case other => other
  }

  predicate AllFinite(xs: seq<Double>)
  {
    forall i | 0 <= i < |xs| :: xs[i].Finite?
  }

  /** The finite parts of a list of doubles, non-finite entries read as 0.0. */
  function Reals(xs: seq<Double>): (r: seq<real>)
    ensures |r| == |xs|
    ensures forall i | 0 <= i < |xs| :: r[i] == DefaultWhenNotFinite(xs[i], 0.0)
  {
    if xs == [] then [] else Reals(xs[..|xs| - 1]) + [DefaultWhenNotFinite(xs[|xs| - 1], 0.0)]
  }

  /** The sum of a list of finite doubles. */
  function RealSum(xs: seq<real>): real
  {
    if xs == [] then 0.0 else RealSum(xs[..|xs| - 1]) + xs[|xs| - 1]
  }

  /** `sum()` on a `List<Double>`: a left fold of `+` starting from 0.0. It is finite
      exactly when every element is, and then it is the real sum. */
  function Sum(xs: seq<Double>): (r: Double)
    ensures r.Finite? <==> AllFinite(xs)
    ensures r.Finite? ==> r.value == RealSum(Reals(xs))
  {
    if xs == [] then Finite(0.0)
    else
      var init := xs[..|xs| - 1];
      assert Reals(xs)[..|xs| - 1] == Reals(init);
      Add(Sum(init), xs[|xs| - 1])
  }

  /** `average()` on a `List<Double>`: NaN for the empty list, otherwise the sum
      divided by the count. It is finite exactly when the list is not empty and all
      its elements are finite, and then it is the arithmetic mean. */
  function Average(xs: seq<Double>): (r: Double)
    ensures r.Finite? <==> |xs| > 0 && AllFinite(xs)
    ensures r.Finite? ==> r.value == RealSum(Reals(xs)) / |xs| as real
  {
    if |xs| == 0 then NaN else DivideBy(Sum(xs), |xs| as real)
  }

  lemma {:induction false} RealSumAppend(xs: seq<real>, ys: seq<real>)
    ensures RealSum(xs + ys) == RealSum(xs) + RealSum(ys)
    decreases |ys|
  {
    if ys == [] {
      assert xs + ys == xs;
    } else {
      var init := ys[..|ys| - 1];
      assert (xs + ys)[..|xs + ys| - 1] == xs + init;
      RealSumAppend(xs, init);
      assert RealSum(xs + ys) == RealSum(xs + init) + ys[|ys| - 1];
    }
  }

  /** Dividing every element by `c` divides the sum by `c`. */
  lemma {:induction false} RealSumScale(xs: seq<real>, ys: seq<real>, c: real)
    requires c != 0.0 && |ys| == |xs|
    requires forall i | 0 <= i < |xs| :: ys[i] == xs[i] / c
    ensures RealSum(ys) == RealSum(xs) / c
    decreases |xs|
  {
    if xs != [] {
      RealSumScale(xs[..|xs| - 1], ys[..|ys| - 1], c);
    }
  }

  /** A sum of non-negative numbers bounds each of them and is non-negative. */
  lemma {:induction false} RealSumBounds(xs: seq<real>, i: nat)
    requires forall j | 0 <= j < |xs| :: xs[j] >= 0.0
    requires i < |xs|
    ensures 0.0 <= xs[i] <= RealSum(xs)
    decreases |xs|
  {
    RealSumNonNegative(xs[..|xs| - 1]);
    if i < |xs| - 1 {
      RealSumBounds(xs[..|xs| - 1], i);
    }
  }

  lemma {:induction false} RealSumNonNegative(xs: seq<real>)
    requires forall j | 0 <= j < |xs| :: xs[j] >= 0.0
    ensures RealSum(xs) >= 0.0
    decreases |xs|
  {
    if xs != [] {
      RealSumNonNegative(xs[..|xs| - 1]);
    }
  }
}
