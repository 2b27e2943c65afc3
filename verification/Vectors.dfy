/** Vectors and matrices over exact reals, with the sums and comprehensions that
    fingerprint.py builds from `zip`, and the algebra the fit relies on. */
module Vectors {
  type Vector = seq<real>
  type Matrix = seq<Vector>

  /** The sum of the products of entries in the same place; it stops with the shorter vector. */
  function Dot(u: Vector, v: Vector): real {
    if u == [] || v == [] then 0.0 else u[0] * v[0] + Dot(u[1..], v[1..])
  }

  function Column(m: Matrix, j: nat): Vector
    requires forall i | 0 <= i < |m| :: j < |m[i]|
  {
    seq(|m|, i requires 0 <= i < |m| => m[i][j])
  }

  /** Every row of m has p entries. */
  predicate HasWidth(m: Matrix, p: nat) {
    forall i | 0 <= i < |m| :: |m[i]| == p
  }

  function Width(m: Matrix): nat {
    if m == [] then 0 else |m[0]|
  }

  /** The p columns of m, as rows. */
  function Columns(m: Matrix, p: nat): Matrix
    requires HasWidth(m, p)
  {
    seq(p, j requires 0 <= j < p => Column(m, j))
  }

  function Transpose(m: Matrix): Matrix
    requires HasWidth(m, Width(m))
  {
    Columns(m, Width(m))
  }

  function MatVec(m: Matrix, v: Vector): Vector {
    seq(|m|, i requires 0 <= i < |m| => Dot(m[i], v))
  }

  function MatMul(a: Matrix, b: Matrix): Matrix
    requires HasWidth(b, Width(b))
  {
    seq(|a|, i requires 0 <= i < |a| =>
      seq(Width(b), j requires 0 <= j < Width(b) => Dot(a[i], Column(b, j))))
  }

  function Plus(u: Vector, v: Vector): Vector
    requires |u| == |v|
  {
    seq(|u|, i requires 0 <= i < |u| => u[i] + v[i])
  }

  function Minus(u: Vector, v: Vector): Vector
    requires |u| == |v|
  {
    seq(|u|, i requires 0 <= i < |u| => u[i] - v[i])
  }

  function Scaled(k: real, v: Vector): Vector {
    seq(|v|, i requires 0 <= i < |v| => k * v[i])
  }

  function Zeros(n: nat): Vector {
    seq(n, _ => 0.0)
  }

  function NormSquared(v: Vector): real {
    Dot(v, v)
  }

  lemma {:induction false} DotSymmetric(u: Vector, v: Vector)
    ensures Dot(u, v) == Dot(v, u)
  {
    if u != [] && v != [] {
      DotSymmetric(u[1..], v[1..]);
    }
  }

  lemma CombineTail(u: Vector, k: real, w: Vector)
    requires |u| == |w| && u != []
    ensures Plus(u, Scaled(k, w))[1..] == Plus(u[1..], Scaled(k, w[1..]))
  {
    var whole, tail := Plus(u, Scaled(k, w)), Plus(u[1..], Scaled(k, w[1..]));
    assert forall i | 0 <= i < |tail| :: whole[1..][i] == whole[i + 1] && tail[i] == whole[i + 1];
  }

  lemma {:induction false} DotCombine(u: Vector, k: real, w: Vector, v: Vector)
    requires |u| == |w|
    ensures Dot(Plus(u, Scaled(k, w)), v) == Dot(u, v) + k * Dot(w, v)
  {
    if u != [] && v != [] {
      CombineTail(u, k, w);
      DotCombine(u[1..], k, w[1..], v[1..]);
      assert Plus(u, Scaled(k, w))[0] * v[0] == u[0] * v[0] + k * (w[0] * v[0]);
    }
  }

  lemma DotMinusRight(v: Vector, a: Vector, b: Vector)
    requires |a| == |b|
    ensures Dot(v, Minus(a, b)) == Dot(v, a) - Dot(v, b)
  {
    assert Minus(a, b) == Plus(a, Scaled(-1.0, b));
    DotCombine(a, -1.0, b, v);
    DotSymmetric(v, Minus(a, b));
    DotSymmetric(v, a);
    DotSymmetric(v, b);
  }

  lemma {:induction false} DotZeros(v: Vector, z: Vector)
    requires forall i | 0 <= i < |z| :: z[i] == 0.0
    ensures Dot(v, z) == 0.0
  {
    if v != [] && z != [] {
      DotZeros(v[1..], z[1..]);
    }
  }

  lemma ProductPlus(a: real, b: real, t: real)
    requires a > 0.0 && b > 0.0 && t >= 0.0
    ensures a * b + t > 0.0
  {}

  lemma SquarePlus(a: real, t: real)
    requires a != 0.0 && t >= 0.0
    ensures a * a + t > 0.0
  {
    if a > 0.0 {
      ProductPlus(a, a, t);
    } else {
      ProductPlus(-a, -a, t);
    }
  }

  lemma {:induction false} NormSquaredNonNegative(v: Vector)
    ensures NormSquared(v) >= 0.0
  {
    if v != [] {
      NormSquaredNonNegative(v[1..]);
      if v[0] != 0.0 {
        SquarePlus(v[0], NormSquared(v[1..]));
      }
    }
  }

  /** Only the zero vector has length zero. */
  lemma {:induction false} NormSquaredPositive(v: Vector, i: nat)
    requires i < |v| && v[i] != 0.0
    ensures NormSquared(v) > 0.0
  {
    if v[0] != 0.0 {
      NormSquaredNonNegative(v[1..]);
      SquarePlus(v[0], NormSquared(v[1..]));
    } else {
      NormSquaredPositive(v[1..], i - 1);
    }
  }

  /** ||a - b||^2 = ||a||^2 - 2 a.b + ||b||^2 */
  lemma NormSquaredOfDifference(a: Vector, b: Vector)
    requires |a| == |b|
    ensures NormSquared(Minus(a, b)) == NormSquared(a) - 2.0 * Dot(a, b) + NormSquared(b)
  {
    var d := Minus(a, b);
    DotMinusRight(d, a, b);
    DotSymmetric(d, a);
    DotSymmetric(d, b);
    DotMinusRight(a, a, b);
    DotMinusRight(b, a, b);
    DotSymmetric(a, b);
  }

  /** A vector with a single 1 picks out one entry of the other. */
  lemma {:induction false} DotUnit(u: Vector, k: nat, v: Vector)
    requires k < |u| && k < |v|
    requires forall j | 0 <= j < |u| && j < |v| :: u[j] == if j == k then 1.0 else 0.0
    ensures Dot(u, v) == v[k]
  {
    if k == 0 {
      DotSymmetric(u[1..], v[1..]);
      DotTruncates(v[1..], u[1..], |v| - 1);
      DotZeros(v[1..], if |u| <= |v| then u[1..] else u[1..][..|v| - 1]);
    } else {
      DotUnit(u[1..], k - 1, v[1..]);
    }
  }

  /** Entries past the length of the other argument do not matter. */
  lemma {:induction false} DotTruncates(v: Vector, u: Vector, n: nat)
    requires |v| <= n
    ensures Dot(v, u) == Dot(v, if |u| <= n then u else u[..n])
  {
    if v != [] && u != [] {
      DotTruncates(v[1..], u[1..], n - 1);
      assert |u| > n ==> u[..n][1..] == u[1..][..n - 1];
    }
  }

  /** Adding one row on top of x adds a multiple of that row to X^T w. */
  lemma TransposeOnTop(x: Matrix, p: nat, w: Vector)
    requires HasWidth(x, p) && |w| == |x| && x != []
    ensures HasWidth(x[1..], p)
    ensures MatVec(Columns(x, p), w)
         == Plus(MatVec(Columns(x[1..], p), w[1..]), Scaled(w[0], x[0]))
  {
    var whole := MatVec(Columns(x, p), w);
    var parts := Plus(MatVec(Columns(x[1..], p), w[1..]), Scaled(w[0], x[0]));
    forall j | 0 <= j < p
      ensures whole[j] == parts[j]
    {
      assert Column(x, j)[1..] == Column(x[1..], j);
    }
  }

  /** (X d) . w == d . (X^T w): the transpose is the adjoint. */
  lemma {:induction false} Adjoint(x: Matrix, p: nat, d: Vector, w: Vector)
    requires HasWidth(x, p) && |d| == p && |w| == |x|
    ensures Dot(MatVec(x, d), w) == Dot(d, MatVec(Columns(x, p), w))
  {
    if x == [] {
      DotZeros(d, MatVec(Columns(x, p), w));
    } else {
      TransposeOnTop(x, p, w);
      assert MatVec(x, d)[1..] == MatVec(x[1..], d);
      assert Dot(MatVec(x, d), w) == Dot(x[0], d) * w[0] + Dot(MatVec(x[1..], d), w[1..]);
      Adjoint(x[1..], p, d, w[1..]);
      var below := MatVec(Columns(x[1..], p), w[1..]);
      DotSymmetric(d, MatVec(Columns(x, p), w));
      DotCombine(below, w[0], x[0], d);
      DotSymmetric(below, d);
      DotSymmetric(x[0], d);
    }
  }

  /** The Gram matrix applies in two steps: (X^T X) c == X^T (X c). */
  lemma GramApplies(x: Matrix, c: Vector)
    requires HasWidth(x, Width(x)) && |c| == Width(x)
    ensures MatVec(MatMul(Transpose(x), x), c) == MatVec(Transpose(x), MatVec(x, c))
  {
    var p, xt := Width(x), Transpose(x);
    var gram := MatMul(xt, x);
    forall i | 0 <= i < p
      ensures Dot(gram[i], c) == Dot(xt[i], MatVec(x, c))
    {
      Adjoint(x, p, c, xt[i]);
      DotSymmetric(MatVec(x, c), xt[i]);
      var row := MatVec(xt, xt[i]);
      forall j | 0 <= j < p
        ensures gram[i][j] == row[j]
      {
        DotSymmetric(xt[i], Column(x, j));
      }
      assert gram[i] == row;
      DotSymmetric(row, c);
    }
    assert MatVec(gram, c) == MatVec(xt, MatVec(x, c));
  }
}
