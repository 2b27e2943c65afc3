/** `_solve` of fingerprint.py: Gauss-Jordan elimination with partial pivoting on a
    square system, in place on the augmented rows, over exact reals. */
module Elimination {
  import opened Vectors
  import opened Wrappers

  datatype SolveError = Singular

  /** Pivots below this magnitude are treated as zero. */
  const TINY := 0.000000000001

  function Abs(x: real): real {
    if x < 0.0 then -x else x
  }

  /** What it means to solve A x = b. */
  ghost predicate Solves(a: Matrix, b: Vector, x: Vector) {
    |x| == |b| && MatVec(a, x) == b
  }

  /** The rows of A with the right-hand side appended. */
  function Augment(a: Matrix, b: Vector): Matrix
    requires |a| == |b|
  {
    seq(|b|, i requires 0 <= i < |b| => a[i] + [b[i]])
  }

  /** n rows of n + 1 entries. */
  ghost predicate Augmented(m: Matrix, n: nat) {
    |m| == n && HasWidth(m, n + 1)
  }

  /** z satisfies every augmented row of m. */
  ghost predicate Satisfies(m: Matrix, z: Vector) {
    forall r | 0 <= r < |m| :: Dot(m[r], z + [-1.0]) == 0.0
  }

  /** The first i columns of m are those of the identity. */
  ghost predicate UnitColumns(m: Matrix, i: nat)
    requires Augmented(m, |m|) && i <= |m|
  {
    forall r, k | 0 <= r < |m| && 0 <= k < i :: m[r][k] == if r == k then 1.0 else 0.0
  }

  // ----- one elimination step, on whole rows -----

  /** p is the first row from i on whose entry in column i is largest in magnitude. */
  ghost predicate IsPivot(m: Matrix, i: nat, p: nat)
    requires Augmented(m, |m|) && i < |m|
  {
    && i <= p < |m|
    && (forall r | i <= r < |m| :: Abs(m[r][i]) <= Abs(m[p][i]))
    && (forall r | i <= r < p :: Abs(m[r][i]) < Abs(m[p][i]))
  }

  /** The search for the pivot row of column i, with the rows from i up to r already seen. */
  function PivotFrom(m: Matrix, i: nat, r: nat, best: nat): nat
    requires Augmented(m, |m|) && i <= best < r <= |m|
    decreases |m| - r
  {
    if r == |m| then best
    else PivotFrom(m, i, r + 1, if Abs(m[r][i]) > Abs(m[best][i]) then r else best)
  }

  lemma {:induction false} PivotFromIsPivot(m: Matrix, i: nat, r: nat, best: nat)
    requires Augmented(m, |m|) && i <= best < r <= |m|
    requires forall k | i <= k < r :: Abs(m[k][i]) <= Abs(m[best][i])
    requires forall k | i <= k < best :: Abs(m[k][i]) < Abs(m[best][i])
    ensures IsPivot(m, i, PivotFrom(m, i, r, best))
    decreases |m| - r
  {
    if r < |m| {
      PivotFromIsPivot(m, i, r + 1, if Abs(m[r][i]) > Abs(m[best][i]) then r else best);
    }
  }

  function Pivot(m: Matrix, i: nat): (p: nat)
    requires Augmented(m, |m|) && i < |m|
    ensures IsPivot(m, i, p)
  {
    PivotFromIsPivot(m, i, i + 1, i);
    PivotFrom(m, i, i + 1, i)
  }

  function Swapped(m: Matrix, i: nat, p: nat): Matrix
    requires i < |m| && p < |m|
  {
    m[i := m[p]][p := m[i]]
  }

  function Quotient(row: Vector, d: real): Vector
    requires d != 0.0
  {
    seq(|row|, j requires 0 <= j < |row| => row[j] / d)
  }

  function Cleared(row: Vector, f: real, pivotRow: Vector): Vector
    requires |row| == |pivotRow|
  {
    seq(|row|, j requires 0 <= j < |row| => row[j] - f * pivotRow[j])
  }

  /** Divide row i by its diagonal entry and subtract it from every other row. */
  function Reduced(m: Matrix, i: nat): Matrix
    requires Augmented(m, |m|) && i < |m| && m[i][i] != 0.0
  {
    var pivotRow := Quotient(m[i], m[i][i]);
    seq(|m|, r requires 0 <= r < |m| =>
      if r == i then pivotRow else Cleared(m[r], m[r][i], pivotRow))
  }

  // ----- the whole elimination, and what it means -----

  /** Steps i, i + 1, ... of the elimination; it stops at a column without a usable pivot. */
  function Eliminated(m: Matrix, i: nat): (r: Result<Matrix, SolveError>)
    requires Augmented(m, |m|) && i <= |m|
    ensures r.Success? ==> Augmented(r.value, |m|)
    decreases |m| - i
  {
    if i == |m| then Success(m) else
      var s := Swapped(m, i, Pivot(m, i));
      if Abs(s[i][i]) < TINY then Failure(Singular) else Eliminated(Reduced(s, i), i + 1)
  }

  function Solution(a: Matrix, b: Vector): Result<Vector, SolveError>
    requires |a| == |b| && HasWidth(a, |b|)
  {
    match Eliminated(Augment(a, b), 0)
    case Failure(e) => Failure(e)
    case Success(m) => Success(Column(m, |b|))
  }

  lemma QuotientEnds(d: real)
    requires d != 0.0
    ensures d / d == 1.0 && 0.0 / d == 0.0
  {}

  /** One step makes column i a column of the identity and keeps those before it. */
  lemma ReducedColumns(m: Matrix, i: nat)
    requires Augmented(m, |m|) && i < |m| && UnitColumns(m, i)
    ensures UnitColumns(Swapped(m, i, Pivot(m, i)), i)
    ensures m[i][i] != 0.0 ==> UnitColumns(Reduced(m, i), i + 1)
  {
    if m[i][i] != 0.0 {
      var q := Reduced(m, i);
      forall r, k | 0 <= r < |m| && 0 <= k < i + 1
        ensures q[r][k] == if r == k then 1.0 else 0.0
      {
        QuotientEnds(m[i][i]);
        if k < i {
          assert Quotient(m[i], m[i][i])[k] == 0.0;
        } else {
          assert Quotient(m[i], m[i][i])[i] == 1.0;
        }
      }
    }
  }

  lemma DivideBack(x: real, d: real)
    requires d != 0.0
    ensures d * (x / d) == x
  {}

  lemma DotQuotient(row: Vector, d: real, v: Vector)
    requires d != 0.0
    ensures d * Dot(Quotient(row, d), v) == Dot(row, v)
  {
    var back := Plus(Zeros(|row|), Scaled(d, Quotient(row, d)));
    forall j | 0 <= j < |row|
      ensures row[j] == back[j]
    {
      DivideBack(row[j], d);
      assert back[j] == 0.0 + d * (row[j] / d);
    }
    assert row == Plus(Zeros(|row|), Scaled(d, Quotient(row, d)));
    DotCombine(Zeros(|row|), d, Quotient(row, d), v);
    DotSymmetric(Zeros(|row|), v);
    DotZeros(v, Zeros(|row|));
  }

  lemma DotCleared(row: Vector, f: real, pivotRow: Vector, v: Vector)
    requires |row| == |pivotRow|
    ensures Dot(Cleared(row, f, pivotRow), v) == Dot(row, v) - f * Dot(pivotRow, v)
  {
    assert Cleared(row, f, pivotRow) == Plus(row, Scaled(-f, pivotRow));
    DotCombine(row, -f, pivotRow, v);
  }

  lemma ReducedRows(m: Matrix, i: nat, r: nat) returns (row: Vector, pivotRow: Vector)
    requires Augmented(m, |m|) && i < |m| && m[i][i] != 0.0 && r < |m|
    ensures row == Reduced(m, i)[r] && pivotRow == Quotient(m[i], m[i][i]) == Reduced(m, i)[i]
    ensures |pivotRow| == |m[r]| && row == if r == i then pivotRow else Cleared(m[r], m[r][i], pivotRow)
  {
    row, pivotRow := Reduced(m, i)[r], Quotient(m[i], m[i][i]);
  }

  lemma ZeroFactor(x: real, y: real)
    requires x != 0.0
    ensures x * y == 0.0 <==> y == 0.0
  {}

  /** The reduced pivot row is met exactly when the row was; the others then stay as they are. */
  lemma ReducedRowMeaning(m: Matrix, i: nat, r: nat, v: Vector)
    requires Augmented(m, |m|) && i < |m| && m[i][i] != 0.0 && r < |m|
    ensures r == i ==> (Dot(Reduced(m, i)[i], v) == 0.0 <==> Dot(m[i], v) == 0.0)
    ensures Dot(Reduced(m, i)[i], v) == 0.0 && r != i ==> Dot(Reduced(m, i)[r], v) == Dot(m[r], v)
  {
    var row, pivotRow := ReducedRows(m, i, r);
    if r == i {
      DotQuotient(m[i], m[i][i], v);
      ZeroFactor(m[i][i], Dot(pivotRow, v));
    } else if Dot(pivotRow, v) == 0.0 {
      DotCleared(m[r], m[r][i], pivotRow, v);
    }
  }

  /** A step neither loses nor invents a solution. */
  lemma ReducedSolutions(m: Matrix, i: nat, z: Vector)
    requires Augmented(m, |m|) && i < |m| && m[i][i] != 0.0
    ensures Satisfies(Reduced(m, i), z) <==> Satisfies(m, z)
  {
    var v, q := z + [-1.0], Reduced(m, i);
    ReducedRowMeaning(m, i, i, v);
    forall r | 0 <= r < |m|
      ensures Dot(q[i], v) == 0.0 ==> (Dot(q[r], v) == 0.0 <==> Dot(m[r], v) == 0.0)
    {
      ReducedRowMeaning(m, i, r, v);
    }
  }

  lemma SwappedSolutions(m: Matrix, i: nat, p: nat, z: Vector)
    requires i < |m| && p < |m|
    ensures Satisfies(Swapped(m, i, p), z) <==> Satisfies(m, z)
  {
    var s := Swapped(m, i, p);
    assert m[i] == s[p] && m[p] == s[i];
    assert forall r | 0 <= r < |m| && r != i && r != p :: m[r] == s[r];
  }

  /** The solutions of a reduced system can be read off its last column. */
  lemma UnitColumnsSolved(m: Matrix, z: Vector)
    requires Augmented(m, |m|) && UnitColumns(m, |m|) && |z| == |m|
    ensures Satisfies(m, z) <==> z == Column(m, |m|)
  {
    var n := |m|;
    forall r | 0 <= r < n
      ensures Dot(m[r], z + [-1.0]) == z[r] - m[r][n]
    {
      DotAppend(m[r][..n], m[r][n], z, -1.0);
      assert m[r] == m[r][..n] + [m[r][n]];
      DotUnit(m[r][..n], r, z);
    }
  }

  lemma {:induction false} DotAppend(u: Vector, x: real, v: Vector, y: real)
    requires |u| == |v|
    ensures Dot(u + [x], v + [y]) == Dot(u, v) + x * y
  {
    if u != [] {
      assert (u + [x])[1..] == u[1..] + [x] && (v + [y])[1..] == v[1..] + [y];
      DotAppend(u[1..], x, v[1..], y);
    }
  }

  lemma AugmentMeaning(a: Matrix, b: Vector, z: Vector)
    requires |a| == |b| && HasWidth(a, |b|) && |z| == |b|
    ensures Satisfies(Augment(a, b), z) <==> Solves(a, b, z)
  {
    var m := Augment(a, b);
    forall r | 0 <= r < |b|
      ensures Dot(m[r], z + [-1.0]) == 0.0 <==> MatVec(a, z)[r] == b[r]
    {
      DotAppend(a[r], b[r], z, -1.0);
    }
  }

  /** Elimination that completes yields unit columns with the same solutions. */
  lemma {:induction false} EliminatedMeaning(m: Matrix, i: nat, z: Vector)
    requires Augmented(m, |m|) && i <= |m| && UnitColumns(m, i)
    requires Eliminated(m, i).Success?
    ensures var e := Eliminated(m, i).value;
            UnitColumns(e, |m|) && (Satisfies(e, z) <==> Satisfies(m, z))
    decreases |m| - i
  {
    if i < |m| {
      var s := Swapped(m, i, Pivot(m, i));
      ReducedColumns(m, i);
      ReducedColumns(s, i);
      SwappedSolutions(m, i, Pivot(m, i), z);
      ReducedSolutions(s, i, z);
      EliminatedMeaning(Reduced(s, i), i + 1, z);
    }
  }

  /** A system equivalent to m in which no row from k on can pivot column k. */
  ghost predicate Stuck(m: Matrix, e: Matrix, k: nat)
    requires Augmented(m, |m|)
  {
    && Augmented(e, |m|) && k < |m| && UnitColumns(e, k)
    && (forall r | k <= r < |m| :: Abs(e[r][k]) < 0.000000000001)
    && (forall z: Vector :: Satisfies(e, z) <==> Satisfies(m, z))
  }

  /** Elimination that gives up has reached an equivalent system without a usable pivot. */
  lemma {:induction false} EliminatedFails(m: Matrix, i: nat)
    requires Augmented(m, |m|) && i <= |m| && UnitColumns(m, i)
    requires Eliminated(m, i).Failure?
    ensures exists e, k :: Stuck(m, e, k)
    decreases |m| - i
  {
    var s := Swapped(m, i, Pivot(m, i));
    ReducedColumns(m, i);
    forall z: Vector
      ensures Satisfies(s, z) <==> Satisfies(m, z)
    {
      SwappedSolutions(m, i, Pivot(m, i), z);
    }
    if Abs(s[i][i]) < TINY {
      assert Stuck(m, s, i);
    } else {
      ReducedColumns(s, i);
      EliminatedFails(Reduced(s, i), i + 1);
      var e, k :| Stuck(Reduced(s, i), e, k);
      StuckBefore(s, i, e, k);
      assert Stuck(m, e, k);
    }
  }

  lemma StuckBefore(s: Matrix, i: nat, e: Matrix, k: nat)
    requires Augmented(s, |s|) && i < |s| && s[i][i] != 0.0 && Stuck(Reduced(s, i), e, k)
    ensures Stuck(s, e, k)
  {
    forall z: Vector
      ensures Satisfies(e, z) <==> Satisfies(s, z)
    {
      ReducedSolutions(s, i, z);
    }
  }

  /** What the elimination returns solves the system it was given, and nothing else does. */
  lemma SolutionIsUnique(a: Matrix, b: Vector, x: Vector)
    requires |a| == |b| && HasWidth(a, |b|) && Solution(a, b) == Success(x)
    ensures forall z :: Solves(a, b, z) <==> z == x
  {
    var m := Augment(a, b);
    forall z: Vector | |z| == |b|
      ensures Solves(a, b, z) <==> z == x
    {
      AugmentMeaning(a, b, z);
      EliminatedMeaning(m, 0, z);
      UnitColumnsSolved(Eliminated(m, 0).value, z);
    }
  }

  /** A system that is solved is nonsingular, so a singular one never returns. */
  lemma SolvedIsNonsingular(a: Matrix, b: Vector, d: Vector)
    requires |a| == |b| && HasWidth(a, |b|) && Solution(a, b).Success?
    requires |d| == |b| && MatVec(a, d) == Zeros(|b|)
    ensures d == Zeros(|b|)
  {
    var x := Solution(a, b).value;
    SolutionIsUnique(a, b, x);
    assert Solves(a, b, x);
    var z := Plus(x, Scaled(1.0, d));
    forall r | 0 <= r < |b|
      ensures Dot(a[r], z) == b[r]
    {
      DotCombine(x, 1.0, d, a[r]);
      DotSymmetric(a[r], z);
      DotSymmetric(a[r], x);
      DotSymmetric(a[r], d);
      assert MatVec(a, d)[r] == 0.0 && MatVec(a, x)[r] == b[r];
    }
    assert Solves(a, b, z);
    forall i | 0 <= i < |d|
      ensures d[i] == 0.0
    {
      assert z[i] == x[i];
    }
  }

  // ----- the loops of the source, which touch only the columns from i on -----

  /** The loop that divides row i by its diagonal entry, from column i on. */
  method NormaliseRow(m: Matrix, i: nat) returns (q: Matrix)
    requires Augmented(m, |m|) && i < |m| && UnitColumns(m, i) && m[i][i] != 0.0
    ensures q == m[i := Quotient(m[i], m[i][i])]
  {
    q := m;
    var diag := m[i][i];
    for j := i to |m| + 1
      invariant |q| == |m| && |q[i]| == |m| + 1
      invariant forall r | 0 <= r < |m| && r != i :: q[r] == m[r]
      invariant forall k | 0 <= k < |m| + 1 :: q[i][k] == if k < j then m[i][k] / diag else m[i][k]
    {
      q := q[i := q[i][j := q[i][j] / diag]];
    }
    assert q[i] == Quotient(m[i], diag);
  }

  /** The loop that takes its multiple of row i from row r, from column i on. */
  method ClearEntry(m: Matrix, i: nat, r: nat) returns (q: Matrix)
    requires Augmented(m, |m|) && i < |m| && r < |m| && r != i
    requires forall k | 0 <= k < i :: m[i][k] == 0.0
    ensures q == m[r := Cleared(m[r], m[r][i], m[i])]
  {
    q := m;
    var f := m[r][i];
    for j := i to |m| + 1
      invariant |q| == |m| && |q[r]| == |m| + 1
      invariant forall k | 0 <= k < |m| && k != r :: q[k] == m[k]
      invariant forall k | 0 <= k < |m| + 1 :: q[r][k] == if k < j then m[r][k] - f * m[i][k] else m[r][k]
    {
      q := q[r := q[r][j := q[r][j] - f * q[i][j]]];
    }
    forall k | 0 <= k < |m| + 1
      ensures q[r][k] == Cleared(m[r], f, m[i])[k]
    {}
    assert q[r] == Cleared(m[r], f, m[i]);
  }

  /** The row updates of one step, with the pivot already on the diagonal. */
  method Reduce(m: Matrix, i: nat) returns (q: Matrix)
    requires Augmented(m, |m|) && i < |m| && UnitColumns(m, i) && m[i][i] != 0.0
    ensures q == Reduced(m, i)
  {
    q := NormaliseRow(m, i);
    for r := 0 to |m|
      invariant Augmented(q, |m|)
      invariant forall k | 0 <= k < |m| :: q[k] == if k < r || k == i then Reduced(m, i)[k] else m[k]
    {
      if r != i {
        q := ClearEntry(q, i, r);
      }
    }
  }

  /** One round of the outer loop, seen through the whole elimination. */
  lemma Round(m: Matrix, i: nat)
    requires Augmented(m, |m|) && i < |m| && UnitColumns(m, i)
    ensures var s := Swapped(m, i, Pivot(m, i));
            && UnitColumns(s, i)
            && (Abs(s[i][i]) < TINY ==> Eliminated(m, i) == Failure(Singular))
            && (Abs(s[i][i]) >= TINY ==>
                  && UnitColumns(Reduced(s, i), i + 1)
                  && Eliminated(m, i) == Eliminated(Reduced(s, i), i + 1))
  {
    ReducedColumns(m, i);
    ReducedColumns(Swapped(m, i, Pivot(m, i)), i);
  }

  /** One round: pick the pivot row, swap it up, and reduce, unless it is too small. */
  method Step(m: Matrix, i: nat) returns (q: Result<Matrix, SolveError>)
    requires Augmented(m, |m|) && i < |m| && UnitColumns(m, i)
    ensures q.Failure? ==> Eliminated(m, i) == q
    ensures q.Success? ==>
              && Augmented(q.value, |m|) && UnitColumns(q.value, i + 1)
              && Eliminated(m, i) == Eliminated(q.value, i + 1)
  {
    Round(m, i);
    var pivot := Pivot(m, i);
    var s := m[i := m[pivot]][pivot := m[i]];
    var diag := s[i][i];
    if Abs(diag) < TINY {
      return Failure(Singular);
    }
    var reduced := Reduce(s, i);
    q := Success(reduced);
  }

  /** Solves the system, with exactly one solution, or finds no usable pivot. */
  method Solve(a: Matrix, b: Vector) returns (x: Result<Vector, SolveError>)
    requires |a| == |b| && HasWidth(a, |b|)
    ensures x == Solution(a, b)
    ensures x.Success? ==> forall z :: Solves(a, b, z) <==> z == x.value
    ensures x.Failure? ==> exists e, k :: Stuck(Augment(a, b), e, k)
  {
    var n := |b|;
    var m := Augment(a, b);
    for i := 0 to n
      invariant Augmented(m, n) && UnitColumns(m, i)
      invariant Eliminated(m, i) == Eliminated(Augment(a, b), 0)
    {
      var q := Step(m, i);
      if q.Failure? {
        EliminatedFails(Augment(a, b), 0);
        return Failure(q.error);
      }
      m := q.value;
    }
    x := Success(Column(m, n));
    SolutionIsUnique(a, b, x.value);
  }
}
