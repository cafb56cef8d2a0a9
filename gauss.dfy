// Gaussian elimination with partial pivoting followed by back substitution,
// the solver the rod calculator applies to its constrained system.
//
// The elimination is modelled twice: as the functions ForwardStep/ForwardFrom,
// which say what each pivot step does to the augmented matrix, and as the
// methods below, whose loops perform those steps entry by entry and are proved
// to compute exactly those functions. The lemmas show that every step keeps
// the solution set of the system, so a successful run yields a solution of
// A·x = b, and that it is the only one.
module Gauss {
  import opened LinAlg
  import opened Outcomes

  /** Pivots whose magnitude is below this are treated as zero. */
  const Tolerance: real := 1e-15

  /** A `size` × (`size` + 1) augmented matrix [A | b]. */
  predicate IsAugmented(M: Matrix)
  {
    forall r :: 0 <= r < |M| ==> |M[r]| == |M| + 1
  }

  function Augment(A: Matrix, b: Vector): Matrix
    requires IsMatrix(A, |b|, |b|)
  {
    seq(|b|, r requires 0 <= r < |b| => A[r] + [b[r]])
  }

  // ---------------------------------------------------------------------------
  // One elimination step, as a function

  /**
   * The pivot search: scanning rows k, k+1, ... of column i, `best` is replaced
   * whenever a row has a strictly larger magnitude.
   */
  function PivotScan(M: Matrix, i: nat, k: nat, best: nat): (r: nat)
    requires IsAugmented(M) && i < |M| && best < |M| && k <= |M|
    ensures r == best || k <= r < |M|
    decreases |M| - k
  {
    if k == |M| then best
    else PivotScan(M, i, k + 1, if Abs(M[k][i]) > Abs(M[best][i]) then k else best)
  }

  function PivotRow(M: Matrix, i: nat): nat
    requires IsAugmented(M) && i < |M|
  {
    PivotScan(M, i, i + 1, i)
  }

  function SwapRows(M: Matrix, i: nat, j: nat): Matrix
    requires i < |M| && j < |M|
  {
    M[i := M[j]][j := M[i]]
  }

  /** Entries from column `from` on are divided by the pivot; earlier ones are left alone. */
  function ScaleRow(row: Vector, from: nat, pivot: real): Vector
    requires pivot != 0.0
  {
    seq(|row|, j requires 0 <= j < |row| => if j >= from then row[j] / pivot else row[j])
  }

  /** From column `from` on, subtract row[from] times the pivot row. */
  function EliminateRow(row: Vector, pivotRow: Vector, from: nat): Vector
    requires |row| == |pivotRow| && from < |row|
  {
    var factor := row[from];
    seq(|row|, j requires 0 <= j < |row| => if j >= from then row[j] - factor * pivotRow[j] else row[j])
  }

  /** Every row below the pivot row `i` is eliminated against it. */
  function EliminateBelow(M: Matrix, i: nat): Matrix
    requires IsAugmented(M) && i < |M|
  {
    seq(|M|, k requires 0 <= k < |M| => if k > i then EliminateRow(M[k], M[i], i) else M[k])
  }

  /**
   * Step i: pick the pivot row, swap it into place, fail on a pivot below the
   * tolerance, normalise the pivot row and eliminate column i below it.
   */
  function ForwardStep(M: Matrix, i: nat): (r: Result<Matrix>)
    requires IsAugmented(M) && i < |M|
    ensures r.Ok? ==> |r.value| == |M| && IsAugmented(r.value)
  {
    var p := PivotRow(M, i);
    var swapped := if p != i then SwapRows(M, i, p) else M;
    var pivot := swapped[i][i];
    if Abs(pivot) < Tolerance then Err(SingularSystem)
    else
      var scaled := swapped[i := ScaleRow(swapped[i], i, pivot)];
      Ok(EliminateBelow(scaled, i))
  }

  /** Steps i, i+1, ..., size-1 of the forward elimination. */
  function ForwardFrom(M: Matrix, i: nat): (r: Result<Matrix>)
    requires IsAugmented(M) && i <= |M|
    ensures r.Ok? ==> |r.value| == |M| && IsAugmented(r.value)
    decreases |M| - i
  {
    if i == |M| then Ok(M)
    else
      match ForwardStep(M, i)
      case Err(e) => Err(e)
      case Ok(next) => ForwardFrom(next, i + 1)
  }

  function Forward(M: Matrix): Result<Matrix>
    requires IsAugmented(M)
  {
    ForwardFrom(M, 0)
  }

  // ---------------------------------------------------------------------------
  // Shapes and solution sets

  /**
   * The first `c` columns are done: below the diagonal they are zero and the
   * diagonal entry is 1.
   */
  predicate EchelonTo(M: Matrix, c: nat)
    requires IsAugmented(M) && c <= |M|
  {
    (forall r, j :: 0 <= r < |M| && 0 <= j < c && j < r ==> M[r][j] == 0.0) &&
    (forall r :: 0 <= r < c ==> M[r][r] == 1.0)
  }

  /** Upper triangular with unit diagonal (ignoring the right-hand-side column). */
  predicate UnitUpper(M: Matrix)
    requires IsAugmented(M)
  {
    EchelonTo(M, |M|)
  }

  /**
   * Every row of M has dot product zero with y. For y = x + [-1] this says that
   * x solves the system M describes; for y = v + [0] that v solves its
   * homogeneous part.
   */
  predicate Annihilates(M: Matrix, y: Vector)
    requires IsAugmented(M) && |y| == |M| + 1
  {
    forall r :: 0 <= r < |M| ==> Dot(M[r], y) == 0.0
  }

  /** x is what back substitution computes from U, row by row from the bottom. */
  predicate BackSubstituted(U: Matrix, x: Vector)
    requires IsAugmented(U) && |x| == |U|
  {
    forall i :: 0 <= i < |U| ==> x[i] == U[i][|U|] - RangeDot(U[i], x, i + 1, |U|)
  }

  // ---------------------------------------------------------------------------
  // Lemmas about the pivot search

  lemma {:induction false} PivotScanMaximal(M: Matrix, i: nat, k: nat, best: nat)
    requires IsAugmented(M) && i < |M| && i <= best < k <= |M|
    requires forall t :: i <= t < k ==> Abs(M[t][i]) <= Abs(M[best][i])
    requires forall t :: i <= t < best ==> Abs(M[t][i]) < Abs(M[best][i])
    ensures var p := PivotScan(M, i, k, best);
      i <= p < |M| &&
      (forall t :: i <= t < |M| ==> Abs(M[t][i]) <= Abs(M[p][i])) &&
      (forall t :: i <= t < p ==> Abs(M[t][i]) < Abs(M[p][i]))
    decreases |M| - k
  {
    if k < |M| {
      var best' := if Abs(M[k][i]) > Abs(M[best][i]) then k else best;
      PivotScanMaximal(M, i, k + 1, best');
    }
  }

  /**
   * Partial pivoting: the chosen row is in i..size-1, its entry in column i is
   * of largest magnitude there, and it is the first row with that magnitude.
   */
  lemma PivotRowIsArgmax(M: Matrix, i: nat)
    requires IsAugmented(M) && i < |M|
    ensures var p := PivotRow(M, i);
      i <= p < |M| &&
      (forall t :: i <= t < |M| ==> Abs(M[t][i]) <= Abs(M[p][i])) &&
      (forall t :: i <= t < p ==> Abs(M[t][i]) < Abs(M[p][i]))
  {
    PivotScanMaximal(M, i, i + 1, i);
  }

  /**
   * Step i fails exactly when every candidate entry of column i, from row i
   * down, is below the tolerance in magnitude.
   */
  lemma ForwardStepFailure(M: Matrix, i: nat)
    requires IsAugmented(M) && i < |M|
    ensures ForwardStep(M, i).Err? <==> forall t :: i <= t < |M| ==> Abs(M[t][i]) < Tolerance
  {
    var p := PivotRow(M, i);
    PivotRowIsArgmax(M, i);
    var swapped := if p != i then SwapRows(M, i, p) else M;
    assert swapped[i][i] == M[p][i];
  }

  // ---------------------------------------------------------------------------
  // Each part of a step keeps the echelon shape and the solution set

  lemma SwapStep(M: Matrix, i: nat, p: nat, y: Vector)
    requires IsAugmented(M) && i <= p < |M| && EchelonTo(M, i) && |y| == |M| + 1
    ensures IsAugmented(SwapRows(M, i, p)) && EchelonTo(SwapRows(M, i, p), i)
    ensures Annihilates(SwapRows(M, i, p), y) <==> Annihilates(M, y)
  {
    var S := SwapRows(M, i, p);
    if Annihilates(M, y) {
      forall r | 0 <= r < |S| ensures Dot(S[r], y) == 0.0 {
        if r == i { assert S[r] == M[p]; } else if r == p { assert S[r] == M[i]; } else { assert S[r] == M[r]; }
      }
    }
    if Annihilates(S, y) {
      forall r | 0 <= r < |M| ensures Dot(M[r], y) == 0.0 {
        if r == i { assert M[r] == S[p]; } else if r == p { assert M[r] == S[i]; } else { assert M[r] == S[r]; }
      }
    }
  }

  /** Dividing the pivot row by its pivot keeps the finished columns and puts a 1 on the diagonal. */
  lemma ScaleShape(M: Matrix, i: nat, pivot: real)
    requires IsAugmented(M) && i < |M| && EchelonTo(M, i)
    requires pivot != 0.0 && M[i][i] == pivot
    ensures var T := M[i := ScaleRow(M[i], i, pivot)];
      IsAugmented(T) && EchelonTo(T, i) && T[i][i] == 1.0
  {
  }

  /** Dividing the pivot row by a non-zero pivot keeps the solution set. */
  lemma ScaleKeepsSolutions(M: Matrix, i: nat, pivot: real, y: Vector)
    requires IsAugmented(M) && i < |M| && EchelonTo(M, i) && |y| == |M| + 1
    requires pivot != 0.0
    ensures var T := M[i := ScaleRow(M[i], i, pivot)];
      IsAugmented(T) && (Annihilates(T, y) <==> Annihilates(M, y))
  {
    var row := ScaleRow(M[i], i, pivot);
    var T := M[i := row];
    var c := 1.0 / pivot;
    forall t | 0 <= t < |row| ensures row[t] == c * M[i][t] + 0.0 * M[i][t] {
      if t < i {
        assert M[i][t] == 0.0;
      } else {
        assert M[i][t] / pivot == c * M[i][t];
      }
    }
    RangeDotLinear(M[i], M[i], row, c, 0.0, y, 0, |row|);
    var d := Dot(M[i], y);
    assert Dot(T[i], y) == c * d;
    assert c * d == 0.0 <==> d == 0.0 by {
      assert c != 0.0;
    }
    forall r | 0 <= r < |M| && r != i ensures T[r] == M[r] { }
  }

  /** Eliminating against a pivot row that is zero before column `from` subtracts a multiple of it in full. */
  lemma EliminateRowDot(row: Vector, pivotRow: Vector, from: nat, y: Vector)
    requires |row| == |pivotRow| == |y| && from < |row|
    requires forall t :: 0 <= t < from ==> pivotRow[t] == 0.0
    ensures Dot(EliminateRow(row, pivotRow, from), y) == Dot(row, y) - row[from] * Dot(pivotRow, y)
  {
    var e := EliminateRow(row, pivotRow, from);
    var f := row[from];
    forall t | 0 <= t < |e| ensures e[t] == 1.0 * row[t] + (-f) * pivotRow[t] {
      if t < from {
        assert pivotRow[t] == 0.0;
      }
    }
    RangeDotLinear(row, pivotRow, e, 1.0, -f, y, 0, |e|);
  }

  /** Row k of EliminateBelow is row k minus a multiple of the pivot row, across all columns. */
  lemma EliminatedRowDot(M: Matrix, i: nat, k: nat, y: Vector)
    requires IsAugmented(M) && i < k < |M| && EchelonTo(M, i) && |y| == |M| + 1
    ensures Dot(EliminateBelow(M, i)[k], y) == Dot(M[k], y) - M[k][i] * Dot(M[i], y)
  {
    assert forall t :: 0 <= t < i ==> M[i][t] == 0.0;
    EliminateRowDot(M[k], M[i], i, y);
  }

  /** Elimination below a unit pivot clears column i under the diagonal. */
  lemma EliminateShape(M: Matrix, i: nat)
    requires IsAugmented(M) && i < |M| && EchelonTo(M, i) && M[i][i] == 1.0
    ensures var E := EliminateBelow(M, i);
      IsAugmented(E) && EchelonTo(E, i + 1)
  {
  }

  /** Subtracting multiples of the pivot row from the rows below it keeps the solution set. */
  lemma EliminateKeepsSolutions(M: Matrix, i: nat, y: Vector)
    requires IsAugmented(M) && i < |M| && EchelonTo(M, i) && |y| == |M| + 1
    ensures var E := EliminateBelow(M, i);
      IsAugmented(E) && (Annihilates(E, y) <==> Annihilates(M, y))
  {
    var E := EliminateBelow(M, i);
    if Annihilates(M, y) {
      forall k | 0 <= k < |E| ensures Dot(E[k], y) == 0.0 {
        if k > i {
          EliminatedRowDot(M, i, k, y);
        } else {
          assert E[k] == M[k];
        }
      }
    }
    if Annihilates(E, y) {
      assert E[i] == M[i];
      assert Dot(M[i], y) == 0.0;
      forall k | 0 <= k < |M| ensures Dot(M[k], y) == 0.0 {
        if k > i {
          EliminatedRowDot(M, i, k, y);
        } else {
          assert E[k] == M[k];
        }
      }
    }
  }

  lemma ForwardStepCorrect(M: Matrix, i: nat, y: Vector)
    requires IsAugmented(M) && i < |M| && EchelonTo(M, i) && |y| == |M| + 1
    requires ForwardStep(M, i).Ok?
    ensures var next := ForwardStep(M, i).value;
      EchelonTo(next, i + 1) && (Annihilates(next, y) <==> Annihilates(M, y))
  {
    var p := PivotRow(M, i);
    PivotRowIsArgmax(M, i);
    var swapped := if p != i then SwapRows(M, i, p) else M;
    if p != i {
      SwapStep(M, i, p, y);
    }
    var pivot := swapped[i][i];
    var scaled := swapped[i := ScaleRow(swapped[i], i, pivot)];
    ScaleShape(swapped, i, pivot);
    ScaleKeepsSolutions(swapped, i, pivot, y);
    EliminateShape(scaled, i);
    EliminateKeepsSolutions(scaled, i, y);
  }

  /**
   * A successful forward elimination ends in unit upper triangular form and
   * has exactly the solutions of the system it started from.
   */
  lemma {:induction false} ForwardFromCorrect(M: Matrix, i: nat, y: Vector)
    requires IsAugmented(M) && i <= |M| && EchelonTo(M, i) && |y| == |M| + 1
    requires ForwardFrom(M, i).Ok?
    ensures var U := ForwardFrom(M, i).value;
      UnitUpper(U) && (Annihilates(U, y) <==> Annihilates(M, y))
    decreases |M| - i
  {
    if i < |M| {
      var next := ForwardStep(M, i).value;
      ForwardStepCorrect(M, i, y);
      ForwardFromCorrect(next, i + 1, y);
    }
  }

  lemma ForwardCorrect(M: Matrix, y: Vector)
    requires IsAugmented(M) && |y| == |M| + 1 && Forward(M).Ok?
    ensures UnitUpper(Forward(M).value)
    ensures Annihilates(Forward(M).value, y) <==> Annihilates(M, y)
  {
    ForwardFromCorrect(M, 0, y);
  }

  // ---------------------------------------------------------------------------
  // Triangular systems

  /** In a unit upper triangular row only the diagonal and the entries to its right count. */
  lemma UnitUpperRowDot(U: Matrix, i: nat, y: Vector)
    requires IsAugmented(U) && UnitUpper(U) && i < |U| && |y| == |U| + 1
    ensures Dot(U[i], y) == y[i] + RangeDot(U[i], y, i + 1, |U| + 1)
  {
    var n := |U| + 1;
    RangeDotSplit(U[i], y, 0, i, n);
    RangeDotSplit(U[i], y, i, i + 1, n);
    RangeDotZero(U[i], y, 0, i);
    assert RangeDot(U[i], y, i, i + 1) == U[i][i] * y[i];
  }

  /** Back substitution on a unit upper triangular system solves it. */
  lemma BackSubstitutionSolves(U: Matrix, x: Vector)
    requires IsAugmented(U) && UnitUpper(U) && |x| == |U| && BackSubstituted(U, x)
    ensures Annihilates(U, x + [-1.0])
  {
    var y := x + [-1.0];
    var s := |U|;
    forall i | 0 <= i < s ensures Dot(U[i], y) == 0.0 {
      UnitUpperRowDot(U, i, y);
      assert RangeDot(U[i], y, i + 1, s + 1) == RangeDot(U[i], y, i + 1, s) + U[i][s] * -1.0;
      RangeDotPointwise(U[i], y, U[i], x, i + 1, s);
    }
  }

  lemma {:induction false} UnitUpperUniqueFrom(U: Matrix, y: Vector, y': Vector, i: nat)
    requires IsAugmented(U) && UnitUpper(U) && |y| == |U| + 1 && |y'| == |U| + 1 && i <= |U|
    requires Annihilates(U, y) && Annihilates(U, y') && y[|U|] == y'[|U|]
    ensures forall t :: i <= t <= |U| ==> y[t] == y'[t]
    decreases |U| - i
  {
    if i < |U| {
      UnitUpperUniqueFrom(U, y, y', i + 1);
      UnitUpperRowDot(U, i, y);
      UnitUpperRowDot(U, i, y');
      RangeDotPointwise(U[i], y, U[i], y', i + 1, |U| + 1);
    }
  }

  /**
   * A unit upper triangular system has at most one solution per value of the
   * last component: in particular one solution of M·x = b, and only the zero
   * solution of M·v = 0.
   */
  lemma UnitUpperUnique(U: Matrix, y: Vector, y': Vector)
    requires IsAugmented(U) && UnitUpper(U) && |y| == |U| + 1 && |y'| == |U| + 1
    requires Annihilates(U, y) && Annihilates(U, y') && y[|U|] == y'[|U|]
    ensures y == y'
  {
    UnitUpperUniqueFrom(U, y, y', 0);
  }

  // ---------------------------------------------------------------------------
  // From the augmented matrix back to A·x = b

  lemma AugmentRowDot(A: Matrix, b: Vector, x: Vector, c: real, r: nat)
    requires IsMatrix(A, |b|, |b|) && |x| == |b| && r < |b|
    ensures Dot(Augment(A, b)[r], x + [c]) == Dot(A[r], x) + b[r] * c
  {
    var row := Augment(A, b)[r];
    var y := x + [c];
    var s := |b|;
    assert RangeDot(row, y, 0, s + 1) == RangeDot(row, y, 0, s) + row[s] * y[s];
    RangeDotPointwise(row, y, A[r], x, 0, s);
  }

  /** x solves A·x = b exactly when every row of [A | b] annihilates x + [-1]. */
  lemma SolvesIffAnnihilates(A: Matrix, b: Vector, x: Vector)
    requires IsMatrix(A, |b|, |b|) && |x| == |b|
    ensures IsAugmented(Augment(A, b))
    ensures MatVec(A, x) == b <==> Annihilates(Augment(A, b), x + [-1.0])
  {
    forall r | 0 <= r < |b| ensures Dot(Augment(A, b)[r], x + [-1.0]) == Dot(A[r], x) - b[r] {
      AugmentRowDot(A, b, x, -1.0, r);
    }
    assert forall r :: 0 <= r < |b| ==> MatVec(A, x)[r] == Dot(A[r], x);
    if Annihilates(Augment(A, b), x + [-1.0]) {
      assert forall r :: 0 <= r < |b| ==> MatVec(A, x)[r] == b[r];
    }
  }

  /** v solves A·v = 0 exactly when every row of [A | b] annihilates v + [0], whatever b is. */
  lemma KernelIffAnnihilates(A: Matrix, b: Vector, v: Vector)
    requires IsMatrix(A, |b|, |b|) && |v| == |b|
    ensures IsAugmented(Augment(A, b))
    ensures MatVec(A, v) == Zeros(|b|) <==> Annihilates(Augment(A, b), v + [0.0])
  {
    forall r | 0 <= r < |b| ensures Dot(Augment(A, b)[r], v + [0.0]) == Dot(A[r], v) {
      AugmentRowDot(A, b, v, 0.0, r);
    }
    assert forall r :: 0 <= r < |b| ==> MatVec(A, v)[r] == Dot(A[r], v);
    if Annihilates(Augment(A, b), v + [0.0]) {
      assert forall r :: 0 <= r < |b| ==> MatVec(A, v)[r] == Zeros(|b|)[r];
    }
  }

  /** A system on which the elimination succeeds has exactly one solution. */
  lemma SolutionUnique(A: Matrix, b: Vector, x: Vector, x': Vector)
    requires IsMatrix(A, |b|, |b|) && |x| == |b| && |x'| == |b|
    requires Forward(Augment(A, b)).Ok?
    requires MatVec(A, x) == b && MatVec(A, x') == b
    ensures x == x'
  {
    var M := Augment(A, b);
    SolvesIffAnnihilates(A, b, x);
    SolvesIffAnnihilates(A, b, x');
    ForwardCorrect(M, x + [-1.0]);
    ForwardCorrect(M, x' + [-1.0]);
    UnitUpperUnique(Forward(M).value, x + [-1.0], x' + [-1.0]);
    assert x == (x + [-1.0])[..|b|];
    assert x' == (x' + [-1.0])[..|b|];
  }

  /** The elimination succeeds only on a non-singular matrix: then A·v = 0 forces v = 0. */
  lemma ForwardOkKernelTrivial(A: Matrix, b: Vector, v: Vector)
    requires IsMatrix(A, |b|, |b|) && |v| == |b|
    requires Forward(Augment(A, b)).Ok?
    requires MatVec(A, v) == Zeros(|b|)
    ensures v == Zeros(|b|)
  {
    var M := Augment(A, b);
    var z := Zeros(|b|);
    assert MatVec(A, z) == z by {
      forall r | 0 <= r < |b| ensures Dot(A[r], z) == 0.0 {
        RangeDotPointwise(A[r], z, z, z, 0, |b|);
        RangeDotZero(z, z, 0, |b|);
      }
    }
    KernelIffAnnihilates(A, b, v);
    KernelIffAnnihilates(A, b, z);
    ForwardCorrect(M, v + [0.0]);
    ForwardCorrect(M, z + [0.0]);
    UnitUpperUnique(Forward(M).value, v + [0.0], z + [0.0]);
    assert v == (v + [0.0])[..|b|];
    assert z == (z + [0.0])[..|b|];
  }

  /**
   * If A·v = 0 has a solution other than zero, the forward elimination fails,
   * whatever the right-hand side.
   */
  lemma SingularFails(A: Matrix, b: Vector, v: Vector)
    requires IsMatrix(A, |b|, |b|) && |v| == |b|
    requires MatVec(A, v) == Zeros(|b|) && v != Zeros(|b|)
    ensures Forward(Augment(A, b)).Err?
  {
    if Forward(Augment(A, b)).Ok? {
      ForwardOkKernelTrivial(A, b, v);
      assert false;
    }
  }

  // ---------------------------------------------------------------------------
  // The solver, as the loops of solveLinearSystem

  /** Copies A and b into a fresh size × (size+1) matrix. */
  method BuildAugmented(A: Matrix, b: Vector) returns (aug: Matrix)
    requires IsMatrix(A, |b|, |b|)
    ensures aug == Augment(A, b)
  {
    var size := |b|;
    aug := seq(size, _ => Zeros(size + 1));
    var i := 0;
    while i < size
      invariant 0 <= i <= size
      invariant IsMatrix(aug, size, size + 1)
      invariant forall r :: 0 <= r < i ==> aug[r] == A[r] + [b[r]]
      invariant forall r :: i <= r < size ==> aug[r] == Zeros(size + 1)
    {
      ghost var before := aug;
      var j := 0;
      while j < size
        invariant 0 <= j <= size
        invariant IsMatrix(aug, size, size + 1)
        invariant forall r :: 0 <= r < size && r != i ==> aug[r] == before[r]
        invariant forall t :: 0 <= t < j ==> aug[i][t] == A[i][t]
        invariant forall t :: j <= t <= size ==> aug[i][t] == 0.0
      {
        aug := aug[i := aug[i][j := A[i][j]]];
        j := j + 1;
      }
      aug := aug[i := aug[i][size := b[i]]];
      assert aug[i] == A[i] + [b[i]];
      i := i + 1;
    }
  }

  /** The pivot search loop: the first row of largest magnitude in column i, from row i down. */
  method FindPivot(M: Matrix, i: nat) returns (maxRow: nat)
    requires IsAugmented(M) && i < |M|
    ensures maxRow == PivotRow(M, i)
    ensures i <= maxRow < |M|
    ensures forall t :: i <= t < |M| ==> Abs(M[t][i]) <= Abs(M[maxRow][i])
  {
    maxRow := i;
    var k := i + 1;
    while k < |M|
      invariant i + 1 <= k <= |M|
      invariant i <= maxRow < k
      invariant PivotScan(M, i, k, maxRow) == PivotRow(M, i)
    {
      if Abs(M[k][i]) > Abs(M[maxRow][i]) {
        maxRow := k;
      }
      k := k + 1;
    }
    PivotRowIsArgmax(M, i);
  }

  /** Divides entries i..size of row i by the pivot. */
  method NormalizeRow(M: Matrix, i: nat, pivot: real) returns (R: Matrix)
    requires IsAugmented(M) && i < |M| && pivot != 0.0
    ensures R == M[i := ScaleRow(M[i], i, pivot)]
  {
    var size := |M|;
    var row := M[i];
    var j := i;
    while j <= size
      invariant i <= j <= size + 1 && |row| == size + 1
      invariant forall t :: 0 <= t <= size ==> row[t] == (if i <= t < j then M[i][t] / pivot else M[i][t])
    {
      row := row[j := row[j] / pivot];
      j := j + 1;
    }
    assert row == ScaleRow(M[i], i, pivot);
    R := M[i := row];
  }

  /** Subtracts from row k its column-i entry times the pivot row i, columns i..size. */
  method EliminateOneRow(M: Matrix, i: nat, k: nat) returns (R: Matrix)
    requires IsAugmented(M) && i < k < |M|
    ensures R == M[k := EliminateRow(M[k], M[i], i)]
  {
    var size := |M|;
    var row := M[k];
    var factor := row[i];
    var j := i;
    while j <= size
      invariant i <= j <= size + 1 && |row| == size + 1
      invariant forall t :: 0 <= t <= size ==> row[t] == (if i <= t < j then M[k][t] - factor * M[i][t] else M[k][t])
    {
      row := row[j := row[j] - factor * M[i][j]];
      j := j + 1;
    }
    assert factor == M[k][i];
    assert forall t :: 0 <= t < |row| ==> row[t] == EliminateRow(M[k], M[i], i)[t];
    assert row == EliminateRow(M[k], M[i], i);
    R := M[k := row];
  }

  /** Eliminates column i from every row below the pivot row. */
  method EliminateColumn(M: Matrix, i: nat) returns (R: Matrix)
    requires IsAugmented(M) && i < |M|
    ensures R == EliminateBelow(M, i)
  {
    R := M;
    var size := |M|;
    var k := i + 1;
    while k < size
      invariant i + 1 <= k <= size
      invariant |R| == size
      invariant forall r :: 0 <= r < size ==> R[r] == (if i < r < k then EliminateRow(M[r], M[i], i) else M[r])
    {
      R := EliminateOneRow(R, i, k);
      k := k + 1;
    }
    assert forall r :: 0 <= r < size ==> R[r] == EliminateBelow(M, i)[r];
  }

  /** The back substitution loop, from the last row up. */
  method BackSubstitute(U: Matrix) returns (x: Vector)
    requires IsAugmented(U)
    ensures |x| == |U| && BackSubstituted(U, x)
  {
    var size := |U|;
    x := Zeros(size);
    var i := size;
    while i > 0
      invariant 0 <= i <= size && |x| == size
      invariant forall t :: i <= t < size ==> x[t] == U[t][size] - RangeDot(U[t], x, t + 1, size)
    {
      i := i - 1;
      var xi := U[i][size];
      var j := i + 1;
      while j < size
        invariant i + 1 <= j <= size
        invariant xi == U[i][size] - RangeDot(U[i], x, i + 1, j)
      {
        xi := xi - U[i][j] * x[j];
        j := j + 1;
      }
      ghost var before := x;
      x := x[i := xi];
      forall t | i <= t < size ensures x[t] == U[t][size] - RangeDot(U[t], x, t + 1, size) {
        RangeDotPointwise(U[t], x, U[t], before, t + 1, size);
      }
    }
  }

  /** One pivot step: the search, the swap, the tolerance check, the scaling and the elimination. */
  method PivotStep(M: Matrix, i: nat) returns (r: Result<Matrix>)
    requires IsAugmented(M) && i < |M|
    ensures r == ForwardStep(M, i)
  {
    var aug := M;
    var maxRow := FindPivot(aug, i);
    if maxRow != i {
      aug := aug[i := aug[maxRow]][maxRow := aug[i]];
    }
    var pivot := aug[i][i];
    if Abs(pivot) < Tolerance {
      return Err(SingularSystem);
    }
    aug := NormalizeRow(aug, i, pivot);
    aug := EliminateColumn(aug, i);
    r := Ok(aug);
  }

  /** The forward pass of solveLinearSystem: the loop computes the function Forward. */
  method ForwardEliminate(M: Matrix) returns (r: Result<Matrix>)
    requires IsAugmented(M)
    ensures r == Forward(M)
  {
    var aug := M;
    var i := 0;
    while i < |M|
      invariant 0 <= i <= |M|
      invariant |aug| == |M| && IsAugmented(aug)
      invariant ForwardFrom(aug, i) == Forward(M)
    {
      var step := PivotStep(aug, i);
      if step.Err? {
        return Err(SingularSystem);
      }
      aug := step.value;
      i := i + 1;
    }
    r := Ok(aug);
  }

  /**
   * solveLinearSystem: an empty system gives an empty solution; otherwise the
   * result is an error exactly when the forward elimination meets a pivot
   * below the tolerance, and a success is a solution of A·x = b (the only one,
   * by SolutionUnique).
   */
  method SolveLinearSystem(A: Matrix, b: Vector) returns (r: Result<Vector>)
    requires IsMatrix(A, |b|, |b|)
    ensures |b| == 0 ==> r == Ok([])
    ensures r.Err? <==> Forward(Augment(A, b)).Err?
    ensures r.Err? ==> r.error == SingularSystem
    ensures r.Ok? ==> |r.value| == |b| && MatVec(A, r.value) == b
  {
    if |b| == 0 {
      return Ok([]);
    }
    var aug := BuildAugmented(A, b);
    var forward := ForwardEliminate(aug);
    if forward.Err? {
      return Err(SingularSystem);
    }
    var U := forward.value;
    var x := BackSubstitute(U);
    ForwardCorrect(aug, x + [-1.0]);
    BackSubstitutionSolves(U, x);
    SolvesIffAnnihilates(A, b, x);
    r := Ok(x);
  }
}
