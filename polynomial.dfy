/** Polynomial evaluation (`polyeval` in src/main.cpp) over exact reals, and
    the cross-track error it yields at the vehicle's local origin. */
module Polynomial {

  /** `x` to the power `n`, built up one factor at a time. */
  function Pow(x: real, n: nat): real {
    if n == 0 then 1.0 else Pow(x, n - 1) * x
  }

  /** The value of the polynomial with coefficients `c` (index = power) at
      `x`: the sum of `c[i] * x^i` for `i < |c|`, added in index order. */
  function PolySum(c: seq<real>, x: real): real
    decreases |c|
  {
    if c == [] then 0.0 else PolySum(c[..|c| - 1], x) + c[|c| - 1] * Pow(x, |c| - 1)
  }

  /** An independent definition of the same value: Horner's scheme. */
  function Horner(c: seq<real>, x: real): real
    decreases |c|
  {
    if c == [] then 0.0 else c[0] + x * Horner(c[1..], x)
  }

  /** Peeling off the constant coefficient: `c(x) = c[0] + x * c'(x)`, where
      `c'` holds the remaining coefficients shifted down one power. */
  lemma {:induction false} PolySumShift(c: seq<real>, x: real)
    requires |c| > 0
    ensures PolySum(c, x) == c[0] + x * PolySum(c[1..], x)
    decreases |c|
  {
    var n := |c|;
    if n == 1 {
      assert c[..0] == [] && c[1..] == [];
    } else {
      var init := c[..n - 1];
      var tail := c[1..];
      PolySumShift(init, x);
      assert init[1..] == tail[..n - 2];
      assert tail[n - 2] == c[n - 1];
      var a, b, p := PolySum(init[1..], x), c[n - 1], Pow(x, n - 2);
      assert PolySum(c, x) == PolySum(init, x) + b * Pow(x, n - 1);
      assert Pow(x, n - 1) == p * x;
      assert PolySum(init, x) == c[0] + x * a;
      assert PolySum(tail, x) == PolySum(tail[..n - 2], x) + tail[n - 2] * p;
      Regroup(PolySum(c, x), PolySum(init, x), PolySum(tail, x), Pow(x, n - 1), c[0], x, a, b, p);
    }
  }

  /** The arithmetic step of `PolySumShift`, kept apart from the recursion. */
  lemma Regroup(s: real, i: real, t: real, q: real, c0: real, x: real, a: real, b: real, p: real)
    requires s == i + b * q && q == p * x && i == c0 + x * a && t == a + b * p
    ensures s == c0 + x * t
  {
  }

  /** The power-sum form and Horner's scheme agree on every polynomial. */
  lemma {:induction false} PolySumIsHorner(c: seq<real>, x: real)
    ensures PolySum(c, x) == Horner(c, x)
    decreases |c|
  {
    if c != [] {
      PolySumShift(c, x);
      PolySumIsHorner(c[1..], x);
      assert Horner(c, x) == c[0] + x * Horner(c[1..], x);
    }
  }

  /** Every power of 0 but the zeroth vanishes, so a polynomial's value at 0
      is its constant coefficient. */
  lemma PolySumAtZero(c: seq<real>)
    requires |c| > 0
    ensures PolySum(c, 0.0) == c[0]
  {
    PolySumShift(c, 0.0);
  }

  /** `polyeval`: accumulates `coeffs[i] * x^i` in a loop. */
  method PolyEval(coeffs: seq<real>, x: real) returns (result: real)
    ensures result == PolySum(coeffs, x)
    ensures result == Horner(coeffs, x)
  {
    result := 0.0;
    var i := 0;
    while i < |coeffs|
      invariant 0 <= i <= |coeffs|
      invariant result == PolySum(coeffs[..i], x)
    {
      assert coeffs[..i + 1][..i] == coeffs[..i];
      result := result + coeffs[i] * Pow(x, i);
      i := i + 1;
    }
    assert coeffs[..|coeffs|] == coeffs;
    PolySumIsHorner(coeffs, x);
  }

  /** The cross-track error: the fitted curve evaluated at the vehicle's
      local origin, which is the curve's constant coefficient. */
  method CrossTrackError(coeffs: seq<real>) returns (cte: real)
    requires |coeffs| > 0
    ensures cte == coeffs[0]
  {
    cte := PolyEval(coeffs, 0.0);
    PolySumAtZero(coeffs);
  }
}
