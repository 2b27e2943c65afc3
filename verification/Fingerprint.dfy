/** `fit` of fingerprint.py up to the coefficient vector: the normal equations of a
    least-squares problem, solved by elimination, over exact reals. */
module Fingerprint {
  import opened Vectors
  import opened Wrappers
  import Elimination

  datatype FitError = TooFewSamples | SingularFit

  const MIN_SAMPLES := 5

  /** Entries per design row: the mean and a sine/cosine pair per period. */
  const COEFFICIENTS := 5

  type DesignRow = v: Vector | |v| == COEFFICIENTS witness [0.0, 0.0, 0.0, 0.0, 0.0]

  /** One design row for each hour. */
  function DesignMatrix(hours: seq<real>, designRow: real -> DesignRow): (x: Matrix)
    ensures |x| == |hours| && HasWidth(x, COEFFICIENTS)
  {
    seq(|hours|, i requires 0 <= i < |hours| => designRow(hours[i]))
  }

  function NormalMatrix(x: Matrix): Matrix
    requires HasWidth(x, Width(x))
  {
    MatMul(Transpose(x), x)
  }

  function NormalRight(x: Matrix, y: Vector): Vector
    requires HasWidth(x, Width(x))
  {
    MatVec(Transpose(x), y)
  }

  /** The data the sums of products really see: one entry per design row, zero where
      y is short, without the entries of y that have no row. */
  function Aligned(y: Vector, n: nat): Vector {
    seq(n, i requires 0 <= i < n => if i < |y| then y[i] else 0.0)
  }

  function Residual(x: Matrix, y: Vector, c: Vector): Vector {
    Minus(Aligned(y, |x|), MatVec(x, c))
  }

  /** || y - X c || squared */
  ghost function SquaredError(x: Matrix, y: Vector, c: Vector): real {
    NormSquared(Residual(x, y, c))
  }

  lemma {:induction false} DotAligned(u: Vector, y: Vector)
    ensures Dot(u, y) == Dot(u, Aligned(y, |u|))
  {
    if u != [] {
      var rest := if y == [] then [] else y[1..];
      DotAligned(u[1..], rest);
      assert Aligned(y, |u|)[1..] == Aligned(rest, |u| - 1);
    }
  }

  /** At a solution of the normal equations the residual is orthogonal to every X d. */
  lemma ResidualOrthogonal(x: Matrix, y: Vector, c: Vector, d: Vector)
    requires HasWidth(x, Width(x)) && |c| == |d| == Width(x)
    requires Elimination.Solves(NormalMatrix(x), NormalRight(x, y), c)
    ensures Dot(MatVec(x, d), Minus(Aligned(y, |x|), MatVec(x, c))) == 0.0
  {
    var p, xt := Width(x), Transpose(x);
    var target, fitted := Aligned(y, |x|), MatVec(x, c);
    var residual := Minus(target, fitted);
    GramApplies(x, c);
    forall j | 0 <= j < p
      ensures MatVec(xt, residual)[j] == 0.0
    {
      DotMinusRight(xt[j], target, fitted);
      DotAligned(xt[j], y);
      assert MatVec(NormalMatrix(x), c)[j] == NormalRight(x, y)[j];
      assert MatVec(xt, fitted)[j] == Dot(xt[j], fitted);
    }
    Adjoint(x, p, d, residual);
    DotZeros(d, MatVec(xt, residual));
  }

  /** || y - X c' ||^2 == || y - X c ||^2 + || X (c' - c) ||^2 */
  lemma ErrorSplits(x: Matrix, y: Vector, c: Vector, other: Vector)
    requires HasWidth(x, Width(x)) && |c| == |other| == Width(x)
    requires Elimination.Solves(NormalMatrix(x), NormalRight(x, y), c)
    ensures SquaredError(x, y, other)
         == SquaredError(x, y, c) + NormSquared(MatVec(x, Minus(other, c)))
  {
    var d := Minus(other, c);
    var residual := Minus(Aligned(y, |x|), MatVec(x, c));
    var step := MatVec(x, d);
    forall i | 0 <= i < |x|
      ensures step[i] == MatVec(x, other)[i] - MatVec(x, c)[i]
    {
      DotMinusRight(x[i], other, c);
    }
    assert Minus(Aligned(y, |x|), MatVec(x, other)) == Minus(residual, step);
    NormSquaredOfDifference(residual, step);
    ResidualOrthogonal(x, y, c, d);
    DotSymmetric(residual, step);
  }

  /** The coefficients that the elimination returns are the only minimum of the squared
      error, for every design matrix and all data. */
  lemma FitMinimises(x: Matrix, y: Vector, c: Vector, other: Vector)
    requires HasWidth(x, Width(x)) && |other| == Width(x)
    requires Elimination.Solution(NormalMatrix(x), NormalRight(x, y)) == Success(c)
    ensures SquaredError(x, y, c) <= SquaredError(x, y, other)
    ensures SquaredError(x, y, c) == SquaredError(x, y, other) ==> other == c
  {
    var a, b := NormalMatrix(x), NormalRight(x, y);
    Elimination.SolutionIsUnique(a, b, c);
    assert Elimination.Solves(a, b, c);
    var d := Minus(other, c);
    var step := MatVec(x, d);
    ErrorSplits(x, y, c, other);
    NormSquaredNonNegative(step);
    if SquaredError(x, y, c) == SquaredError(x, y, other) {
      forall i | 0 <= i < |step|
        ensures step[i] == 0.0
      {
        if step[i] != 0.0 {
          NormSquaredPositive(step, i);
        }
      }
      GramApplies(x, d);
      forall j | 0 <= j < Width(x)
        ensures MatVec(a, d)[j] == 0.0
      {
        DotZeros(Transpose(x)[j], step);
        assert MatVec(Transpose(x), step)[j] == Dot(Transpose(x)[j], step);
      }
      Elimination.SolvedIsNonsingular(a, b, d);
      forall j | 0 <= j < |c|
        ensures other[j] == c[j]
      {
        assert d[j] == 0.0;
      }
    }
  }

  /** w + b1 sin(w1) + c1 cos(w1) + b2 sin(w2) + c2 cos(w2) */
  function Predicted(r: DesignRow, c: Vector): real
    requires |c| == COEFFICIENTS
  {
    r[0] * c[0] + r[1] * c[1] + r[2] * c[2] + r[3] * c[3] + r[4] * c[4]
  }

  /** The squares of what the readings miss the curve by, added up: each hour with the
      reading in the same place, and with none as if it were zero. */
  function SampleError(hours: seq<real>, lms: Vector, designRow: real -> DesignRow, c: Vector): real
    requires |c| == COEFFICIENTS
  {
    if hours == [] then 0.0
    else
      var missed := (if lms == [] then 0.0 else lms[0]) - Predicted(designRow(hours[0]), c);
      missed * missed + SampleError(hours[1..], if lms == [] then [] else lms[1..], designRow, c)
  }

  /** Every reading lies on the curve with coefficients c. */
  predicate OnCurve(hours: seq<real>, lms: Vector, designRow: real -> DesignRow, c: Vector)
    requires |c| == COEFFICIENTS
  {
    |lms| == |hours| && forall i | 0 <= i < |hours| :: lms[i] == Predicted(designRow(hours[i]), c)
  }

  lemma DotOfFive(r: DesignRow, c: Vector)
    requires |c| == COEFFICIENTS
    ensures Dot(r, c) == Predicted(r, c)
  {
    var r1, c1 := r[1..], c[1..];
    var r2, c2 := r1[1..], c1[1..];
    var r3, c3 := r2[1..], c2[1..];
    assert Dot(r, c) == r[0] * c[0] + r[1] * c[1] + Dot(r2, c2);
    assert Dot(r2, c2) == r[2] * c[2] + r[3] * c[3] + Dot(r3[1..], c3[1..]);
    assert Dot(r3[1..], c3[1..]) == r[4] * c[4] + Dot(r3[2..], c3[2..]);
  }

  lemma FirstResidual(x: Matrix, y: Vector, c: Vector)
    requires x != []
    ensures |Residual(x, y, c)| == |x| && Residual(x, y, c)[0] == (if y == [] then 0.0 else y[0]) - Dot(x[0], c)
    ensures Residual(x, y, c)[1..] == Residual(x[1..], if y == [] then [] else y[1..], c)
  {}

  /** The squared error of the matrix form, sample by sample. */
  lemma {:induction false} ErrorOfSamples(hours: seq<real>, lms: Vector, designRow: real -> DesignRow, c: Vector)
    requires |c| == COEFFICIENTS
    ensures SquaredError(DesignMatrix(hours, designRow), lms, c) == SampleError(hours, lms, designRow, c)
  {
    var x := DesignMatrix(hours, designRow);
    if hours != [] {
      FirstResidual(x, lms, c);
      DotOfFive(x[0], c);
      assert x[1..] == DesignMatrix(hours[1..], designRow);
      ErrorOfSamples(hours[1..], if lms == [] then [] else lms[1..], designRow, c);
    }
  }

  lemma {:induction false} NoErrorOnCurve(hours: seq<real>, lms: Vector, designRow: real -> DesignRow, c: Vector)
    requires |c| == COEFFICIENTS && OnCurve(hours, lms, designRow, c)
    ensures SampleError(hours, lms, designRow, c) == 0.0
  {
    if hours != [] {
      forall i | 0 <= i < |hours| - 1
        ensures lms[1..][i] == Predicted(designRow(hours[1..][i]), c)
      {
        assert lms[i + 1] == Predicted(designRow(hours[i + 1]), c);
      }
      NoErrorOnCurve(hours[1..], lms[1..], designRow, c);
    }
  }

  lemma {:induction false} ErrorNotNegative(hours: seq<real>, lms: Vector, designRow: real -> DesignRow, c: Vector)
    requires |c| == COEFFICIENTS
    ensures SampleError(hours, lms, designRow, c) >= 0.0
  {
    if hours != [] {
      ErrorNotNegative(hours[1..], if lms == [] then [] else lms[1..], designRow, c);
    }
  }

  /** c alone has the least error over the samples. */
  ghost predicate OnlyMinimum(hours: seq<real>, lms: Vector, designRow: real -> DesignRow, c: Vector) {
    && |c| == COEFFICIENTS
    && forall other: Vector | |other| == COEFFICIENTS && other != c ::
         SampleError(hours, lms, designRow, c) < SampleError(hours, lms, designRow, other)
  }

  lemma FitOfSamples(hours: seq<real>, lms: Vector, designRow: real -> DesignRow, c: Vector)
    requires |hours| >= MIN_SAMPLES
    requires var x := DesignMatrix(hours, designRow);
             Elimination.Solution(NormalMatrix(x), NormalRight(x, lms)) == Success(c)
    ensures OnlyMinimum(hours, lms, designRow, c)
  {
    var x := DesignMatrix(hours, designRow);
    assert Width(x) == |x[0]| == COEFFICIENTS;
    Elimination.SolutionIsUnique(NormalMatrix(x), NormalRight(x, lms), c);
    forall other: Vector | |other| == COEFFICIENTS && other != c
      ensures SampleError(hours, lms, designRow, c) < SampleError(hours, lms, designRow, other)
    {
      FitMinimises(x, lms, c, other);
      ErrorOfSamples(hours, lms, designRow, c);
      ErrorOfSamples(hours, lms, designRow, other);
    }
  }

  /** Readings that lie on a curve give that curve back. */
  lemma CurveRecovered(hours: seq<real>, lms: Vector, designRow: real -> DesignRow, c: Vector, curve: Vector)
    requires OnlyMinimum(hours, lms, designRow, c)
    requires |curve| == COEFFICIENTS && OnCurve(hours, lms, designRow, curve)
    ensures c == curve
  {
    NoErrorOnCurve(hours, lms, designRow, curve);
    ErrorNotNegative(hours, lms, designRow, c);
  }

  /** The fit refuses short data, and otherwise returns the one minimiser unless the
      normal equations have no usable pivot. */
  method Fit(hours: seq<real>, lms: Vector, designRow: real -> DesignRow)
      returns (c: Result<Vector, FitError>)
    ensures |hours| < MIN_SAMPLES <==> c == Failure(TooFewSamples)
    ensures c.Success? ==> OnlyMinimum(hours, lms, designRow, c.value)
    ensures c.Success? ==>
              forall curve: Vector | |curve| == COEFFICIENTS && OnCurve(hours, lms, designRow, curve) ::
                curve == c.value
    ensures var x := DesignMatrix(hours, designRow);
            c == Failure(SingularFit) ==>
              x != [] && HasWidth(x, Width(x)) &&
              Elimination.Solution(NormalMatrix(x), NormalRight(x, lms)).Failure?
  {
    if |hours| < MIN_SAMPLES {
      return Failure(TooFewSamples);
    }
    var x := DesignMatrix(hours, designRow);
    assert Width(x) == |x[0]| == COEFFICIENTS;
    var xt := Transpose(x);
    var solved := Elimination.Solve(MatMul(xt, x), MatVec(xt, lms));
    match solved {
      case Failure(_) =>
        c := Failure(SingularFit);
      case Success(v) =>
        c := Success(v);
        FitOfSamples(hours, lms, designRow, v);
        forall curve: Vector | |curve| == COEFFICIENTS && OnCurve(hours, lms, designRow, curve)
          ensures curve == v
        {
          CurveRecovered(hours, lms, designRow, v, curve);
        }
    }
  }
}
