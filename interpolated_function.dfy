/**
 * The natural cubic spline of functions/interpolated_function.py.
 *
 * For knots x[0..n] and values y[0..n] the spline keeps, per knot i, a cubic
 * a[i] + b[i]·dx + c[i]·dx² + d[i]·dx³ with dx = v − x[i]; it is used on the
 * segment (x[i−1], x[i]] to the LEFT of its knot, because the evaluator looks
 * up the first knot >= v. The interior c's solve an (n−1)×(n−1) tridiagonal
 * system by Cramer's rule; the determinant (numpy.linalg.det) is a parameter.
 */
module InterpolatedFunction {
  import opened Reals

  type Matrix = seq<seq<real>>

  /** A determinant function on square matrices; the model never looks inside it. */
  type Det = Matrix -> real

  datatype Option<T> = None | Some(value: T)

  // ---------------------------------------------------------------------------
  // Knot lookup: bisect.bisect_left
  // ---------------------------------------------------------------------------

  predicate Sorted(xs: seq<real>)
  {
    forall i, j :: 0 <= i < j < |xs| ==> xs[i] <= xs[j]
  }

  predicate StrictlyIncreasing(xs: seq<real>)
  {
    forall i, j :: 0 <= i < j < |xs| ==> xs[i] < xs[j]
  }

  /** The binary search of bisect_left on xs[lo..hi]. */
  function BisectFrom(xs: seq<real>, v: real, lo: nat, hi: nat): (r: nat)
    requires lo <= hi <= |xs|
    ensures lo <= r <= hi
    ensures Sorted(xs) ==> forall j :: lo <= j < r ==> xs[j] < v
    ensures Sorted(xs) ==> forall j :: r <= j < hi ==> v <= xs[j]
    decreases hi - lo
  {
    if lo < hi then
      var mid := (lo + hi) / 2;
      if xs[mid] < v then BisectFrom(xs, v, mid + 1, hi) else BisectFrom(xs, v, lo, mid)
    else lo
  }

  /** bisect_left(xs, v): on sorted xs, the first index whose knot is >= v, or |xs| if none is. */
  function BisectLeft(xs: seq<real>, v: real): (r: nat)
    ensures r <= |xs|
    ensures Sorted(xs) ==> (forall j :: 0 <= j < r ==> xs[j] < v) && (r < |xs| ==> v <= xs[r])
  {
    BisectFrom(xs, v, 0, |xs|)
  }

  /** On strictly increasing knots bisect_left finds every knot at its own index. */
  lemma BisectLeftAtKnot(xs: seq<real>, i: nat)
    requires StrictlyIncreasing(xs) && i < |xs|
    ensures BisectLeft(xs, xs[i]) == i
  {
    var r := BisectLeft(xs, xs[i]);
    assert forall j :: 0 <= j < i ==> xs[j] < xs[i];
  }

  // ---------------------------------------------------------------------------
  // The cubic pieces and their derivatives
  // ---------------------------------------------------------------------------

  /** The cubic a + b·dx + c·dx² + d·dx³ that calculate evaluates. */
  function Cubic(a: real, b: real, c: real, d: real, dx: real): (r: real)
    ensures dx == 0.0 ==> r == a
    ensures b == 0.0 && c == 0.0 && d == 0.0 ==> r == a
  {
    a + b * dx + c * (dx * dx) + d * (dx * dx * dx)
  }

  /** The first derivative of Cubic with respect to dx. */
  function Slope(b: real, c: real, d: real, dx: real): real
  {
    b + 2.0 * c * dx + 3.0 * d * (dx * dx)
  }

  /** The second derivative of Cubic with respect to dx. */
  function Curvature(c: real, d: real, dx: real): real
  {
    2.0 * c + 6.0 * d * dx
  }

  // ---------------------------------------------------------------------------
  // The tridiagonal system
  // ---------------------------------------------------------------------------

  /** The segment widths h[i] = x[i+1] − x[i]. */
  function Widths(xs: seq<real>): (h: seq<real>)
    requires |xs| >= 1
    ensures |h| == |xs| - 1
    ensures forall i :: 0 <= i < |h| ==> h[i] == xs[i + 1] - xs[i]
  {
    seq(|xs| - 1, i requires 0 <= i < |xs| - 1 => xs[i + 1] - xs[i])
  }

  predicate NonzeroWidths(xs: seq<real>)
    requires |xs| >= 1
  {
    forall i :: 0 <= i < |xs| - 1 ==> Widths(xs)[i] != 0.0
  }

  /** Entry (i, j) of the system matrix: h[i], 2(h[i] + h[i+1]), h[i+1] on the three diagonals, 0 elsewhere. */
  function Tridiagonal(h: seq<real>, i: nat, j: nat): real
    requires i + 1 < |h| && j + 1 < |h|
  {
    if j == i then 2.0 * (h[i] + h[i + 1])
    else if j + 1 == i then h[i]
    else if j == i + 1 then h[i + 1]
    else 0.0
  }

  /** The (n−1)×(n−1) matrix that fill_in_matrix builds, for n = |h|. */
  function SystemMatrix(h: seq<real>): (m: Matrix)
    requires |h| >= 2
    ensures |m| == |h| - 1
    ensures forall i :: 0 <= i < |m| ==> |m[i]| == |m|
    ensures forall i, j :: 0 <= i < |m| && 0 <= j < |m| ==> m[i][j] == Tridiagonal(h, i, j)
  {
    seq(|h| - 1, i requires 0 <= i < |h| - 1 =>
      seq(|h| - 1, j requires 0 <= j < |h| - 1 => Tridiagonal(h, i, j)))
  }

  /** The right-hand side 3·((y[i+2] − y[i+1])/h[i+1] − (y[i+1] − y[i])/h[i]) of row i. */
  function RhsEntry(h: seq<real>, y: seq<real>, i: nat): (r: real)
    requires i + 1 < |h| && |y| == |h| + 1
    requires h[i] != 0.0 && h[i + 1] != 0.0
    ensures r == 0.0 <==> (y[i + 2] - y[i + 1]) / h[i + 1] == (y[i + 1] - y[i]) / h[i]
  {
    3.0 * ((y[i + 2] - y[i + 1]) / h[i + 1] - (y[i + 1] - y[i]) / h[i])
  }

  function SystemRhs(h: seq<real>, y: seq<real>): (r: seq<real>)
    requires |h| >= 2 && |y| == |h| + 1
    requires forall i :: 0 <= i < |h| ==> h[i] != 0.0
    ensures |r| == |h| - 1
    ensures forall i :: 0 <= i < |r| ==> r[i] == RhsEntry(h, y, i)
  {
    seq(|h| - 1, i requires 0 <= i < |h| - 1 => RhsEntry(h, y, i))
  }

  /** The contents of a two-dimensional array, row by row. */
  function Rows(A: array2<real>): (m: Matrix)
    reads A
    ensures |m| == A.Length0
    ensures forall i :: 0 <= i < |m| ==> |m[i]| == A.Length1
    ensures forall i, j :: 0 <= i < A.Length0 && 0 <= j < A.Length1 ==> m[i][j] == A[i, j]
  {
    seq(A.Length0, i reads A requires 0 <= i < A.Length0 =>
      seq(A.Length1, j reads A requires 0 <= j < A.Length1 => A[i, j]))
  }

  /**
   * The loop of fill_in_matrix: rows 1..n−3 get their three diagonal entries
   * and their right-hand side; no entry off the three diagonals changes.
   */
  method FillInteriorRows(A: array2<real>, b: array<real>, n: nat, h: seq<real>, y: seq<real>)
    requires n >= 3
    requires A.Length0 == n - 1 && A.Length1 == n - 1 && b.Length == n - 1
    requires |h| == n && |y| == n + 1
    requires forall i :: 0 <= i < n ==> h[i] != 0.0
    modifies A, b
    ensures forall i :: 1 <= i < n - 2 ==>
      A[i, i - 1] == h[i] && A[i, i] == 2.0 * (h[i] + h[i + 1]) && A[i, i + 1] == h[i + 1]
    ensures forall r, j :: 0 <= r < n - 1 && 0 <= j < n - 1 && (r > j + 1 || j > r + 1) ==> A[r, j] == old(A[r, j])
    ensures forall i :: 1 <= i < n - 2 ==> b[i] == RhsEntry(h, y, i)
    ensures forall r :: 0 <= r < n - 1 && !(1 <= r < n - 2) ==> b[r] == old(b[r])
    ensures forall r, j :: 0 <= r < n - 1 && 0 <= j < n - 1 && !(1 <= r < n - 2) ==> A[r, j] == old(A[r, j])
  {
    for i := 1 to n - 2
      invariant forall r :: 1 <= r < i ==>
        A[r, r - 1] == h[r] && A[r, r] == 2.0 * (h[r] + h[r + 1]) && A[r, r + 1] == h[r + 1]
      invariant forall r, j :: 0 <= r < n - 1 && 0 <= j < n - 1 && (r > j + 1 || j > r + 1) ==>
        A[r, j] == old(A[r, j])
      invariant forall r :: 1 <= r < i ==> b[r] == RhsEntry(h, y, r)
      invariant forall r :: 0 <= r < n - 1 && !(1 <= r < i) ==> b[r] == old(b[r])
      invariant forall r, j :: 0 <= r < n - 1 && 0 <= j < n - 1 && !(1 <= r < i) ==> A[r, j] == old(A[r, j])
    {
      FillRow(A, n, h, i);
      b[i] := RhsEntry(h, y, i);
    }
  }

  /** One pass of the loop of fill_in_matrix on A: the three diagonal entries of row i. */
  method FillRow(A: array2<real>, n: nat, h: seq<real>, i: nat)
    requires 1 <= i < n - 2 && A.Length0 == n - 1 && A.Length1 == n - 1 && |h| == n
    modifies A
    ensures A[i, i - 1] == h[i] && A[i, i] == 2.0 * (h[i] + h[i + 1]) && A[i, i + 1] == h[i + 1]
    ensures forall r, j :: 0 <= r < n - 1 && 0 <= j < n - 1 && (r != i || j + 1 < i || j > i + 1) ==>
      A[r, j] == old(A[r, j])
  {
    A[i, i - 1] := h[i];
    A[i, i] := 2.0 * (h[i] + h[i + 1]);
    A[i, i + 1] := h[i + 1];
  }

  /**
   * fill_in_matrix: the interior rows, then row 0 and row n−2. Afterwards the
   * three diagonals of A and all of b hold the system; every entry of A off
   * the three diagonals keeps its value.
   */
  method FillInMatrix(A: array2<real>, b: array<real>, n: nat, h: seq<real>, y: seq<real>)
    requires n >= 3
    requires A.Length0 == n - 1 && A.Length1 == n - 1 && b.Length == n - 1
    requires |h| == n && |y| == n + 1
    requires forall i :: 0 <= i < n ==> h[i] != 0.0
    modifies A, b
    ensures forall i :: 0 <= i < n - 1 ==> A[i, i] == 2.0 * (h[i] + h[i + 1])
    ensures forall i :: 1 <= i < n - 1 ==> A[i, i - 1] == h[i]
    ensures forall j :: 1 <= j < n - 1 ==> A[j - 1, j] == h[j]
    ensures forall r, j :: 0 <= r < n - 1 && 0 <= j < n - 1 && (r > j + 1 || j > r + 1) ==> A[r, j] == old(A[r, j])
    ensures forall i :: 0 <= i < n - 1 ==> b[i] == RhsEntry(h, y, i)
  {
    FillInteriorRows(A, b, n, h, y);
    FillEndRows(A, n, h);
    b[0] := RhsEntry(h, y, 0);
    b[n - 2] := RhsEntry(h, y, n - 2);
  }

  /** The writes of fill_in_matrix to rows 0 and n−2 of A; every other entry keeps its value. */
  method FillEndRows(A: array2<real>, n: nat, h: seq<real>)
    requires n >= 3 && A.Length0 == n - 1 && A.Length1 == n - 1 && |h| == n
    modifies A
    ensures A[0, 0] == 2.0 * (h[0] + h[1]) && A[0, 1] == h[1]
    ensures A[n - 2, n - 3] == h[n - 2] && A[n - 2, n - 2] == 2.0 * (h[n - 2] + h[n - 1])
    ensures forall r, j :: 0 <= r < n - 1 && 0 <= j < n - 1 && !(r == 0 && j <= 1) && !(r == n - 2 && j >= n - 3) ==>
      A[r, j] == old(A[r, j])
  {
    A[0, 0] := 2.0 * (h[0] + h[1]);
    A[0, 1] := h[1];
    A[n - 2, n - 3] := h[n - 2];
    A[n - 2, n - 2] := 2.0 * (h[n - 2] + h[n - 1]);
  }

  /** A zero matrix that fill_in_matrix has filled holds the system matrix. */
  lemma FilledMatrixIsSystem(A: array2<real>, h: seq<real>)
    requires |h| >= 3 && A.Length0 == |h| - 1 && A.Length1 == |h| - 1
    requires forall i :: 0 <= i < |h| - 1 ==> A[i, i] == 2.0 * (h[i] + h[i + 1])
    requires forall i :: 1 <= i < |h| - 1 ==> A[i, i - 1] == h[i]
    requires forall j :: 1 <= j < |h| - 1 ==> A[j - 1, j] == h[j]
    requires forall i, j :: 0 <= i < |h| - 1 && 0 <= j < |h| - 1 && (i > j + 1 || j > i + 1) ==> A[i, j] == 0.0
    ensures Rows(A) == SystemMatrix(h)
  {
    var n := |h|;
    forall i, j | 0 <= i < n - 1 && 0 <= j < n - 1
      ensures Rows(A)[i][j] == SystemMatrix(h)[i][j]
    {
      if j + 1 == i {
        assert A[i, i - 1] == h[i];
      }
    }
    assert forall i :: 0 <= i < n - 1 ==> Rows(A)[i] == SystemMatrix(h)[i];
  }

  // ---------------------------------------------------------------------------
  // Cramer's rule: kramer
  // ---------------------------------------------------------------------------

  predicate IsSquare(m: Matrix)
  {
    forall i :: 0 <= i < |m| ==> |m[i]| == |m|
  }

  /** `list(zip(*m))`: the columns of a square matrix, as rows. */
  function Transpose(m: Matrix): (t: Matrix)
    requires IsSquare(m)
    ensures |t| == |m| && IsSquare(t)
    ensures forall i, j :: 0 <= i < |m| && 0 <= j < |m| ==> t[j][i] == m[i][j]
  {
    seq(|m|, j requires 0 <= j < |m| => seq(|m|, i requires 0 <= i < |m| => m[i][j]))
  }

  /** kramer's result: the sentinel string for a zero determinant, or the solution vector. */
  datatype Solved = NoSolution | Solution(values: seq<real>)

  /**
   * The solution Cramer's rule gives: entry i is det of the transpose of m
   * with row i replaced by b, over det of the transpose (the transpose is what `zip(*m)` builds). */
  function CramerValues(m: Matrix, b: seq<real>, det: Det): (r: seq<real>)
    requires IsSquare(m) && |b| == |m| && det(Transpose(m)) != 0.0
    ensures |r| == |m|
    ensures forall i :: 0 <= i < |m| ==> r[i] == det(Transpose(m)[i := b]) / det(Transpose(m))
  {
    seq(|m|, i requires 0 <= i < |m| => det(Transpose(m)[i := b]) / det(Transpose(m)))
  }

  /**
   * kramer: NoSolution exactly when the determinant is 0; otherwise one entry
   * per row, entry i being det of the
   * transpose with row i replaced by b, over det of the transpose.
   */
  method Kramer(m: Matrix, b: seq<real>, det: Det) returns (r: Solved)
    requires IsSquare(m) && |b| == |m|
    ensures r.NoSolution? <==> det(Transpose(m)) == 0.0
    ensures r.Solution? ==> |r.values| == |m|
    ensures r.Solution? ==> forall i :: 0 <= i < |m| ==>
      r.values[i] == det(Transpose(m)[i := b]) / det(Transpose(m))
  {
    var tmp := Transpose(m);
    var delta := det(tmp);
    if delta == 0.0 {
      return NoSolution;
    }
    var result := [];
    for i := 0 to |m|
      invariant |result| == i
      invariant forall j :: 0 <= j < i ==> result[j] == det(tmp[j := b]) / delta
    {
      var A := tmp;
      A := A[i := b];
      result := result + [det(A) / delta];
    }
    return Solution(result);
  }

  /**
   * The middle of getSpline: a zero matrix and right-hand side, filled by
   * fill_in_matrix and solved by kramer.
   */
  method SolveSystem(h: seq<real>, ys: seq<real>, det: Det) returns (ans: Solved)
    requires |h| >= 3 && |ys| == |h| + 1
    requires forall i :: 0 <= i < |h| ==> h[i] != 0.0
    ensures ans.NoSolution? <==> det(Transpose(SystemMatrix(h))) == 0.0
    ensures ans.Solution? ==> ans.values == CramerValues(SystemMatrix(h), SystemRhs(h, ys), det)
  {
    var n := |h|;
    var A := new real[n - 1, n - 1]((_, _) => 0.0);
    var rhs := new real[n - 1](_ => 0.0);

    FillInMatrix(A, rhs, n, h, ys);
    FilledMatrixIsSystem(A, h);
    assert rhs[..] == SystemRhs(h, ys);

    ans := Kramer(Rows(A), rhs[..], det);
  }

  // ---------------------------------------------------------------------------
  // The coefficients getSpline derives
  // ---------------------------------------------------------------------------

  /** The d getSpline derives at knot i >= 1: (c[i] − c[i−1]) / (3·h[i−1]). */
  function DCoefficient(h: seq<real>, c: seq<real>, i: nat): (r: real)
    requires 1 <= i < |c| && |h| == |c| - 1 && h[i - 1] != 0.0
    ensures r * (3.0 * h[i - 1]) == c[i] - c[i - 1]
  {
    (c[i] - c[i - 1]) / (3.0 * h[i - 1])
  }

  /** The b getSpline derives at knot i >= 1: (y[i] − y[i−1]) / h[i−1] + h[i−1]·(2c[i] + c[i−1]) / 3. */
  function BCoefficient(h: seq<real>, ys: seq<real>, c: seq<real>, i: nat): (r: real)
    requires 1 <= i < |c| && |h| == |c| - 1 && |ys| == |c| && h[i - 1] != 0.0
    ensures c[i] == 0.0 && c[i - 1] == 0.0 ==> r * h[i - 1] == ys[i] - ys[i - 1]
  {
    (ys[i] - ys[i - 1]) / h[i - 1] + h[i - 1] * (2.0 * c[i] + c[i - 1]) / 3.0
  }

  /** The d and b getSpline derives at knot i >= 1 from the widths h, the values ys and the c's. */
  predicate KnotCoefficients(h: seq<real>, ys: seq<real>, b: seq<real>, c: seq<real>, d: seq<real>, i: nat)
    requires 1 <= i < |ys| && |h| == |ys| - 1 && |b| == |ys| && |c| == |ys| && |d| == |ys|
    requires h[i - 1] != 0.0
  {
    d[i] == DCoefficient(h, c, i) && b[i] == BCoefficient(h, ys, c, i)
  }

  /**
   * The coefficient lists b, c, d that getSpline derives from the knots xs,
   * the values ys and the interior solution ans (a is ys itself).
   */
  ghost predicate SplineCoefficients(xs: seq<real>, ys: seq<real>, ans: seq<real>, b: seq<real>, c: seq<real>, d: seq<real>)
  {
    var n := |xs| - 1;
    && n >= 1 && |ys| == n + 1 && NonzeroWidths(xs)
    && |ans| == n - 1 && |b| == n + 1 && |c| == n + 1 && |d| == n + 1
    && c[0] == 0.0 && c[n] == 0.0
    && (forall i :: 1 <= i < n ==> c[i] == ans[i - 1])
    && b[0] == 0.0 && d[0] == 0.0
    && (forall i :: 1 <= i <= n ==> KnotCoefficients(Widths(xs), ys, b, c, d, i))
  }

  /** The interior solution ans satisfies the tridiagonal system A·ans = rhs. */
  ghost predicate SolvesSystem(xs: seq<real>, ys: seq<real>, ans: seq<real>)
    requires |xs| >= 3 && |ys| == |xs| && NonzeroWidths(xs)
  {
    var h := Widths(xs);
    |ans| == |h| - 1 && MatVec(SystemMatrix(h), ans) == SystemRhs(h, ys)
  }

  /** The sum of the entries of w. */
  function Sum(w: seq<real>): real
  {
    if w == [] then 0.0 else Sum(w[..|w| - 1]) + w[|w| - 1]
  }

  function Dot(u: seq<real>, v: seq<real>): real
    requires |u| == |v|
  {
    Sum(seq(|u|, j requires 0 <= j < |u| => u[j] * v[j]))
  }

  function MatVec(m: Matrix, v: seq<real>): (r: seq<real>)
    requires forall i :: 0 <= i < |m| ==> |m[i]| == |v|
    ensures |r| == |m|
    ensures forall i :: 0 <= i < |m| ==> r[i] == Dot(m[i], v)
  {
    seq(|m|, i requires 0 <= i < |m| => Dot(m[i], v))
  }

  /** A sum over a prefix of a row that is zero away from the three diagonals around i. */
  lemma {:induction false} SumOfBand(w: seq<real>, i: nat, k: nat)
    requires i < |w| && k <= |w|
    requires forall j :: 0 <= j < |w| && (j + 1 < i || j > i + 1) ==> w[j] == 0.0
    ensures Sum(w[..k]) == (if 1 <= i && i - 1 < k then w[i - 1] else 0.0)
                         + (if i < k then w[i] else 0.0)
                         + (if i + 1 < k then w[i + 1] else 0.0)
  {
    if k > 0 {
      SumOfBand(w, i, k - 1);
      assert w[..k][..k - 1] == w[..k - 1];
    }
  }

  /** Row i of the system applied to v, written out: h[i]·v[i−1] + 2(h[i] + h[i+1])·v[i] + h[i+1]·v[i+1]. */
  function RowValue(h: seq<real>, v: seq<real>, i: nat): real
    requires |v| == |h| - 1 && i < |v|
  {
    (if i >= 1 then h[i] * v[i - 1] else 0.0)
    + 2.0 * (h[i] + h[i + 1]) * v[i]
    + (if i + 1 < |v| then h[i + 1] * v[i + 1] else 0.0)
  }

  /** Only the three diagonals of a row contribute to its product with v. */
  lemma SystemRow(h: seq<real>, v: seq<real>, i: nat)
    requires |h| >= 2 && |v| == |h| - 1 && i < |v|
    ensures Dot(SystemMatrix(h)[i], v) == RowValue(h, v, i)
  {
    var u := SystemMatrix(h)[i];
    var w := seq(|u|, j requires 0 <= j < |u| => u[j] * v[j]);
    SumOfBand(w, i, |w|);
    assert w[..|w|] == w;
  }

  /** A·ans = rhs written out row by row, with only the three diagonals of each row. */
  ghost predicate RowEquations(xs: seq<real>, ys: seq<real>, ans: seq<real>)
    requires |xs| >= 3 && |ys| == |xs| && NonzeroWidths(xs)
  {
    |ans| == |xs| - 2 && forall i :: 0 <= i < |ans| ==> RowValue(Widths(xs), ans, i) == RhsEntry(Widths(xs), ys, i)
  }

  /** Solving the full matrix system is the same as satisfying every banded row equation. */
  lemma SolvesSystemByRows(xs: seq<real>, ys: seq<real>, ans: seq<real>)
    requires |xs| >= 3 && |ys| == |xs| && NonzeroWidths(xs)
    ensures SolvesSystem(xs, ys, ans) <==> RowEquations(xs, ys, ans)
  {
    var h := Widths(xs);
    var m := SystemMatrix(h);
    if |ans| == |h| - 1 {
      forall i | 0 <= i < |ans|
        ensures MatVec(m, ans)[i] == RowValue(h, ans, i)
      {
        SystemRow(h, ans, i);
      }
      if RowEquations(xs, ys, ans) {
        assert MatVec(m, ans) == SystemRhs(h, ys);
      }
    }
  }

  /** The sum of the absolute off-diagonal entries of row i. */
  function OffDiagonal(row: seq<real>, i: nat): real
  {
    Sum(seq(|row|, j requires 0 <= j < |row| => if j == i then 0.0 else Abs(row[j])))
  }

  /** With strictly increasing knots every row's diagonal entry exceeds the sum of its off-diagonal entries. */
  lemma DiagonallyDominant(xs: seq<real>, i: nat)
    requires |xs| >= 3 && StrictlyIncreasing(xs) && i < |xs| - 2
    ensures var row := SystemMatrix(Widths(xs))[i];
      Abs(row[i]) > OffDiagonal(row, i)
  {
    var h := Widths(xs);
    var row := SystemMatrix(h)[i];
    assert h[i] > 0.0 && h[i + 1] > 0.0 by {
      assert xs[i] < xs[i + 1] < xs[i + 2];
    }
    var w := seq(|row|, j requires 0 <= j < |row| => if j == i then 0.0 else Abs(row[j]));
    SumOfBand(w, i, |w|);
    assert w[..|w|] == w;
  }

  // ---------------------------------------------------------------------------
  // What the coefficients guarantee
  // ---------------------------------------------------------------------------

  /** The algebra behind ValueContinuity, at one knot. */
  lemma CubicAtLeftEnd(h: seq<real>, ys: seq<real>, b: seq<real>, c: seq<real>, d: seq<real>, k: nat)
    requires 1 <= k < |ys| && |h| == |ys| - 1 && |b| == |ys| && |c| == |ys| && |d| == |ys|
    requires h[k - 1] != 0.0 && KnotCoefficients(h, ys, b, c, d, k)
    ensures Cubic(ys[k], b[k], c[k], d[k], -h[k - 1]) == ys[k - 1]
  {
    var H := h[k - 1];
    assert b[k] * H == (ys[k] - ys[k - 1]) + H * H * (2.0 * c[k] + c[k - 1]) / 3.0;
    assert d[k] * (H * H * H) == (c[k] - c[k - 1]) * (H * H) / 3.0;
    assert Cubic(ys[k], b[k], c[k], d[k], -H) == ys[k] - b[k] * H + c[k] * (H * H) - d[k] * (H * H * H);
  }

  /** Value continuity: the cubic of knot k, taken back to knot k−1, gives y[k−1] (for any c). */
  lemma ValueContinuity(xs: seq<real>, ys: seq<real>, ans: seq<real>, b: seq<real>, c: seq<real>, d: seq<real>, k: nat)
    requires SplineCoefficients(xs, ys, ans, b, c, d)
    requires 1 <= k < |xs|
    ensures Cubic(ys[k], b[k], c[k], d[k], xs[k - 1] - xs[k]) == ys[k - 1]
  {
    var h := Widths(xs);
    assert xs[k - 1] - xs[k] == -h[k - 1];
    CubicAtLeftEnd(h, ys, b, c, d, k);
  }

  /** The algebra behind CurvatureContinuity, at one knot. */
  lemma CurvatureAtLeftEnd(h: seq<real>, ys: seq<real>, b: seq<real>, c: seq<real>, d: seq<real>, k: nat)
    requires 1 <= k < |ys| && |h| == |ys| - 1 && |b| == |ys| && |c| == |ys| && |d| == |ys|
    requires h[k - 1] != 0.0 && KnotCoefficients(h, ys, b, c, d, k)
    ensures Curvature(c[k], d[k], -h[k - 1]) == 2.0 * c[k - 1]
  {
    assert d[k] * h[k - 1] == (c[k] - c[k - 1]) / 3.0;
  }

  /**
   * Second-derivative continuity (for any c): the cubic of knot k, taken back
   * to knot k−1, has the second derivative of the cubic of knot k−1 there.
   */
  lemma CurvatureContinuity(xs: seq<real>, ys: seq<real>, ans: seq<real>, b: seq<real>, c: seq<real>, d: seq<real>, k: nat)
    requires SplineCoefficients(xs, ys, ans, b, c, d)
    requires 1 <= k < |xs|
    ensures Curvature(c[k], d[k], xs[k - 1] - xs[k]) == Curvature(c[k - 1], d[k - 1], 0.0)
  {
    var h := Widths(xs);
    assert xs[k - 1] - xs[k] == -h[k - 1];
    CurvatureAtLeftEnd(h, ys, b, c, d, k);
  }

  /** The natural boundary: the second derivative is 0 at x[0] and at x[n]. */
  lemma NaturalBoundary(xs: seq<real>, ys: seq<real>, ans: seq<real>, b: seq<real>, c: seq<real>, d: seq<real>)
    requires SplineCoefficients(xs, ys, ans, b, c, d)
    ensures Curvature(c[1], d[1], xs[0] - xs[1]) == 0.0
    ensures Curvature(c[|xs| - 1], d[|xs| - 1], 0.0) == 0.0
  {
    CurvatureContinuity(xs, ys, ans, b, c, d, 1);
  }

  /**
   * The algebra behind SlopeContinuity on plain reals: s0 and s1 are the
   * difference quotients of the two segments meeting at knot k, H0 and H1
   * their widths, and c0, c1, c2 the c's at knots k−1, k, k+1.
   */
  lemma SlopeAlgebra(H0: real, H1: real, s0: real, s1: real, c0: real, c1: real, c2: real, bk: real, bk1: real, dk1: real)
    requires bk == s0 + H0 * (2.0 * c1 + c0) / 3.0
    requires bk1 == s1 + H1 * (2.0 * c2 + c1) / 3.0
    requires H1 != 0.0 && dk1 == (c2 - c1) / (3.0 * H1)
    requires H0 * c0 + 2.0 * (H0 + H1) * c1 + H1 * c2 == 3.0 * (s1 - s0)
    ensures Slope(bk1, c2, dk1, -H1) == bk
  {
    assert dk1 * (3.0 * H1) == c2 - c1;
    assert 3.0 * dk1 * (H1 * H1) == (c2 - c1) * H1;
  }

  /** The algebra behind SlopeContinuity, at one interior knot k. */
  lemma SlopeAtLeftEnd(h: seq<real>, ys: seq<real>, b: seq<real>, c: seq<real>, d: seq<real>, k: nat)
    requires 1 <= k < |ys| - 1 && |h| == |ys| - 1 && |b| == |ys| && |c| == |ys| && |d| == |ys|
    requires h[k - 1] != 0.0 && h[k] != 0.0
    requires KnotCoefficients(h, ys, b, c, d, k) && KnotCoefficients(h, ys, b, c, d, k + 1)
    requires h[k - 1] * c[k - 1] + 2.0 * (h[k - 1] + h[k]) * c[k] + h[k] * c[k + 1] == RhsEntry(h, ys, k - 1)
    ensures Slope(b[k + 1], c[k + 1], d[k + 1], -h[k]) == b[k]
  {
    var s0, s1 := (ys[k] - ys[k - 1]) / h[k - 1], (ys[k + 1] - ys[k]) / h[k];
    assert RhsEntry(h, ys, k - 1) == 3.0 * (s1 - s0);
    SlopeAlgebra(h[k - 1], h[k], s0, s1, c[k - 1], c[k], c[k + 1], b[k], b[k + 1], d[k + 1]);
  }

  /** Row k−1 of the system in terms of the c's, which are ans with a 0 added at each end. */
  lemma RowInCoefficients(h: seq<real>, ans: seq<real>, c: seq<real>, k: nat)
    requires |ans| == |h| - 1 && |c| == |h| + 1 && 1 <= k < |h|
    requires c[0] == 0.0 && c[|h|] == 0.0
    requires forall i :: 1 <= i < |h| ==> c[i] == ans[i - 1]
    ensures RowValue(h, ans, k - 1) == h[k - 1] * c[k - 1] + 2.0 * (h[k - 1] + h[k]) * c[k] + h[k] * c[k + 1]
  {
    if k == 1 {
      assert c[k - 1] == 0.0;
    } else {
      assert c[k - 1] == ans[k - 2];
    }
    if k < |ans| {
      assert c[k + 1] == ans[k];
    } else {
      assert c[k + 1] == 0.0;
    }
  }

  /**
   * First-derivative continuity at every interior knot k: when ans solves the
   * system, the slope of the cubic of knot k+1 at x[k] equals b[k], the slope
   * of the cubic of knot k there.
   */
  lemma SlopeContinuity(xs: seq<real>, ys: seq<real>, ans: seq<real>, b: seq<real>, c: seq<real>, d: seq<real>, k: nat)
    requires |xs| >= 3
    requires SplineCoefficients(xs, ys, ans, b, c, d)
    requires RowEquations(xs, ys, ans)
    requires 1 <= k < |xs| - 1
    ensures Slope(b[k + 1], c[k + 1], d[k + 1], xs[k] - xs[k + 1]) == Slope(b[k], c[k], d[k], 0.0)
  {
    var h := Widths(xs);
    assert RowValue(h, ans, k - 1) == RhsEntry(h, ys, k - 1);
    RowInCoefficients(h, ans, c, k);
    assert xs[k] - xs[k + 1] == -h[k];
    SlopeAtLeftEnd(h, ys, b, c, d, k);
  }

  // ---------------------------------------------------------------------------
  // The InterpolatedFunction object
  // ---------------------------------------------------------------------------

  class InterpolatedFunction {
    var x: seq<real>
    var a: seq<real>
    var b: seq<real>
    var c: seq<real>
    var d: seq<real>
    var f: seq<real>

    /** An object before its coefficients are computed. */
    constructor ()
      ensures x == [] && a == [] && b == [] && c == [] && d == [] && f == []
      ensures Valid()
    {
      x, a, b, c, d, f := [], [], [], [], [], [];
    }

    /** calculate can index every coefficient list at every knot index. */
    ghost predicate Valid()
      reads this
    {
      |a| >= |x| && |b| >= |x| && |c| >= |x| && |d| >= |x|
    }

    /**
     * getSpline: sets x and a, builds and solves the system, and derives c,
     * d and b. On a singular system getSpline raises an exception after
     * kramer's sentinel string (an IndexError at line 64 for n >= 13, a
     * TypeError at line 68 for smaller n); here it returns false with b, c
     * and d still zero.
     */
    method GetSpline(xs: seq<real>, ys: seq<real>, det: Det) returns (ok: bool)
      requires |xs| >= 4 && |ys| == |xs|
      requires NonzeroWidths(xs)
      modifies this
      ensures x == xs && a == ys
      ensures ok <==> det(Transpose(SystemMatrix(Widths(xs)))) != 0.0
      ensures Valid()
      ensures ok ==> f == ys
      ensures ok ==> SplineCoefficients(xs, ys,
        CramerValues(SystemMatrix(Widths(xs)), SystemRhs(Widths(xs), ys), det), b, c, d)
      ensures !ok ==> f == old(f)
      ensures !ok ==> b == seq(|xs|, _ => 0.0) && c == b && d == b
    {
      var n := |xs| - 1;
      var h := Widths(xs);

      x, a := xs, ys;

      b := seq(n + 1, _ => 0.0);
      c := seq(n + 1, _ => 0.0);
      d := seq(n + 1, _ => 0.0);

      var ans := SolveSystem(h, ys, det);
      if ans.NoSolution? {
        return false;
      }

      DeriveCoefficients(h, ys, ans.values);
      x := xs;
      f := ys;
      return true;
    }

    /**
     * The two loops at the end of getSpline: c takes the interior solution
     * with 0 at both ends, then d and b are derived knot by knot from the top.
     */
    method DeriveCoefficients(h: seq<real>, ys: seq<real>, ans: seq<real>)
      requires |h| >= 3 && |ys| == |h| + 1 && |ans| == |h| - 1
      requires forall i :: 0 <= i < |h| ==> h[i] != 0.0
      requires |b| == |h| + 1 && |c| == |h| + 1 && |d| == |h| + 1
      requires b[0] == 0.0 && d[0] == 0.0
      requires forall j :: 0 <= j < |c| ==> c[j] == 0.0
      modifies this
      ensures x == old(x) && a == old(a) && f == old(f)
      ensures |b| == |h| + 1 && |c| == |h| + 1 && |d| == |h| + 1
      ensures c[0] == 0.0 && c[|h|] == 0.0
      ensures forall i :: 1 <= i < |h| ==> c[i] == ans[i - 1]
      ensures b[0] == 0.0 && d[0] == 0.0
      ensures forall i :: 1 <= i <= |h| ==> d[i] == DCoefficient(h, c, i) && b[i] == BCoefficient(h, ys, c, i)
    {
      var n := |h|;
      var i := n - 1;
      while i >= 1
        invariant 0 <= i <= n - 1 && |c| == n + 1
        invariant forall j :: 0 <= j <= n ==> c[j] == if i < j < n then ans[j - 1] else 0.0
        invariant x == old(x) && a == old(a) && f == old(f) && b == old(b) && d == old(d)
      {
        c := c[i := ans[i - 1]];
        i := i - 1;
      }
      c := c[0 := 0.0][n := 0.0];
      ghost var cs := c;

      i := n;
      while i >= 1
        invariant 0 <= i <= n && |b| == n + 1 && |d| == n + 1
        invariant x == old(x) && a == old(a) && f == old(f) && c == cs
        invariant b[0] == 0.0 && d[0] == 0.0
        invariant forall j :: i < j <= n ==> d[j] == DCoefficient(h, c, j) && b[j] == BCoefficient(h, ys, c, j)
      {
        d := d[i := DCoefficient(h, c, i)];
        b := b[i := BCoefficient(h, ys, c, i)];
        i := i - 1;
      }
    }

    /** calculate_interpolation_coeffs with in-memory points (knots, values): copies both lists, then getSpline. */
    method CalculateInterpolationCoeffs(points: (seq<real>, seq<real>), det: Det) returns (ok: bool)
      requires |points.0| >= 4 && |points.1| == |points.0|
      requires NonzeroWidths(points.0)
      modifies this
      ensures x == points.0 && a == points.1
      ensures ok <==> det(Transpose(SystemMatrix(Widths(points.0)))) != 0.0
      ensures Valid()
      ensures ok ==> f == points.1
      ensures ok ==> SplineCoefficients(points.0, points.1,
        CramerValues(SystemMatrix(Widths(points.0)), SystemRhs(Widths(points.0), points.1), det), b, c, d)
      ensures !ok ==> f == old(f)
      ensures !ok ==> b == seq(|points.0|, _ => 0.0) && c == b && d == b
    {
      var xs := points.0;
      var fs := points.1;
      ok := GetSpline(xs, fs, det);
    }

    /**
     * calculate(v): 0 past the last knot; otherwise the cubic of the first
     * knot >= v, at dx = v − that knot.
     */
    function Calculate(v: real): (r: real)
      reads this
      requires Valid()
      ensures BisectLeft(x, v) == |x| ==> r == 0.0
      ensures BisectLeft(x, v) < |x| ==>
        var k := BisectLeft(x, v); r == Cubic(a[k], b[k], c[k], d[k], v - x[k])
      ensures Sorted(x) && |x| > 0 && v > x[|x| - 1] ==> r == 0.0
    {
      var indx := BisectLeft(x, v);
      if indx == |x| then 0.0
      else
        var dx := v - x[indx];
        Cubic(a[indx], b[indx], c[indx], d[indx], dx)
    }

    /** Knot round-trip: on strictly increasing knots the spline returns a[i] = y[i] at knot i, since dx = 0. */
    lemma KnotRoundTrip(i: nat)
      requires Valid() && StrictlyIncreasing(x) && i < |x|
      ensures Calculate(x[i]) == a[i]
    {
      BisectLeftAtKnot(x, i);
    }

    /** Between knots k−1 and k the spline is the cubic stored at knot k. */
    lemma SegmentOf(v: real, k: nat)
      requires Valid() && Sorted(x) && 1 <= k < |x|
      requires x[k - 1] < v <= x[k]
      ensures Calculate(v) == Cubic(a[k], b[k], c[k], d[k], v - x[k])
    {
      assert forall j :: 0 <= j < k ==> x[j] <= x[k - 1];
    }

    /** At or left of the first knot the spline is the constant a[0], because b[0] = c[0] = d[0] = 0. */
    lemma LeftOfFirstKnot(v: real)
      requires Valid() && Sorted(x) && |x| > 0 && v <= x[0]
      requires b[0] == 0.0 && c[0] == 0.0 && d[0] == 0.0
      ensures Calculate(v) == a[0]
    {
    }
  }

  /**
   * The InterpolatedFunction constructor with in-memory points: None where
   * constructing the Python object fails on a singular system.
   */
  method New(points: (seq<real>, seq<real>), det: Det) returns (r: Option<InterpolatedFunction>)
    requires |points.0| >= 4 && |points.1| == |points.0|
    requires NonzeroWidths(points.0)
    ensures r.Some? <==> det(Transpose(SystemMatrix(Widths(points.0)))) != 0.0
    ensures r.Some? ==> fresh(r.value) && r.value.x == points.0 && r.value.a == points.1 && r.value.f == points.1 && r.value.Valid()
    ensures r.Some? ==> SplineCoefficients(points.0, points.1,
      CramerValues(SystemMatrix(Widths(points.0)), SystemRhs(Widths(points.0), points.1), det),
      r.value.b, r.value.c, r.value.d)
  {
    var fn := new InterpolatedFunction();
    var ok := fn.CalculateInterpolationCoeffs(points, det);
    r := if ok then Some(fn) else None;
  }
}
