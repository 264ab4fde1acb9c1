/** The design matrix of the least-squares polynomial fit (`polyfit` in
    src/main.cpp, up to the QR solve), and what the matrix means: row `j`
    times a coefficient vector is that polynomial evaluated at `xvals[j]`. */
module Fitting {
  import opened Polynomial

  /** `polyfit`'s construction of `A`: column 0 is all ones, and each further
      column is the previous one multiplied by the sample's x value. */
  method DesignMatrix(xvals: seq<real>, yvals: seq<real>, order: int) returns (A: array2<real>)
    requires |xvals| == |yvals|
    requires 1 <= order <= |xvals| - 1
    ensures fresh(A)
    ensures A.Length0 == |xvals| && A.Length1 == order + 1
    ensures forall j, i :: 0 <= j < A.Length0 && 0 <= i < A.Length1 ==> A[j, i] == Pow(xvals[j], i)
    ensures forall j, i :: 0 <= j < A.Length0 && 0 <= i < A.Length1 ==> A[j, i] == VandermondeRow(xvals[j], order + 1)[i]
  {
    var n := |xvals|;
    A := new real[n, order + 1];
    var r := 0;
    while r < n
      invariant 0 <= r <= n
      invariant forall k :: 0 <= k < r ==> A[k, 0] == 1.0
    {
      A[r, 0] := 1.0;
      r := r + 1;
    }
    var j := 0;
    while j < n
      invariant 0 <= j <= n
      invariant forall k :: 0 <= k < n ==> A[k, 0] == 1.0
      invariant forall k, i :: 0 <= k < j && 0 <= i <= order ==> A[k, i] == Pow(xvals[k], i)
    {
      var i := 0;
      while i < order
        invariant 0 <= i <= order
        invariant forall k :: 0 <= k < n ==> A[k, 0] == 1.0
        invariant forall k, c :: 0 <= k < j && 0 <= c <= order ==> A[k, c] == Pow(xvals[k], c)
        invariant forall c :: 0 <= c <= i ==> A[j, c] == Pow(xvals[j], c)
      {
        A[j, i + 1] := A[j, i] * xvals[j];
        i := i + 1;
      }
      j := j + 1;
    }
  }

  /** The row the design matrix holds for a sample at `x`: `x^0 .. x^(m-1)`. */
  function VandermondeRow(x: real, m: nat): (row: seq<real>)
    ensures |row| == m
  {
    seq(m, i requires 0 <= i => Pow(x, i))
  }

  /** The dot product of two equally long vectors, summed in index order. */
  function Dot(u: seq<real>, v: seq<real>): real
    requires |u| == |v|
    decreases |u|
  {
    if u == [] then 0.0 else Dot(u[..|u| - 1], v[..|v| - 1]) + u[|u| - 1] * v[|v| - 1]
  }

  /** A design-matrix row times a coefficient vector evaluates the polynomial
      at that row's sample. */
  lemma {:induction false} RowTimesCoefficients(x: real, c: seq<real>)
    ensures Dot(VandermondeRow(x, |c|), c) == PolySum(c, x)
    decreases |c|
  {
    if c != [] {
      var n := |c|;
      assert VandermondeRow(x, n)[..n - 1] == VandermondeRow(x, n - 1);
      RowTimesCoefficients(x, c[..n - 1]);
    }
  }

  /** The polynomial `c` passes through every sample `(xvals[j], yvals[j])`. */
  ghost predicate Interpolates(c: seq<real>, xvals: seq<real>, yvals: seq<real>)
    requires |xvals| == |yvals|
  {
    forall j :: 0 <= j < |xvals| ==> PolySum(c, xvals[j]) == yvals[j]
  }

  /** When the samples lie exactly on a polynomial of the fitted degree, its
      coefficients solve the design system `A c = y` with zero residual. */
  lemma ExactSamplesSolveDesignSystem(xvals: seq<real>, yvals: seq<real>, c: seq<real>)
    requires |xvals| == |yvals|
    requires Interpolates(c, xvals, yvals)
    ensures forall j :: 0 <= j < |xvals| ==> Dot(VandermondeRow(xvals[j], |c|), c) == yvals[j]
  {
    forall j | 0 <= j < |xvals|
      ensures Dot(VandermondeRow(xvals[j], |c|), c) == yvals[j]
    {
      RowTimesCoefficients(xvals[j], c);
    }
  }
}
