/** What solve_triangular promises, proved about the model in Linalg: the
    1×1 shortcut, the orientation rules and error cases, that the result
    solves M·x = y for a triangular M with non-zero diagonal (and is the only
    vector that does), and that an explicit hint makes the solver read only
    one triangle of M. */
module LinalgProperties {

  import opened Matrices
  import opened Linalg

  /** The lower triangle of M, diagonal included, with zeros above it. */
  function LowerPart(M: Matrix): (L: Matrix)
    requires IsSquare(M)
    ensures |L| == |M| && IsSquare(L) && IsLower(L)
    ensures forall i, j :: 0 <= j <= i < |M| ==> L[i][j] == M[i][j]
  {
    seq(|M|, i requires 0 <= i < |M| => seq(|M|, j requires 0 <= j < |M| => if j <= i then M[i][j] else 0.0))
  }

  /** The upper triangle of M, diagonal included, with zeros below it. */
  function UpperPart(M: Matrix): (U: Matrix)
    requires IsSquare(M)
    ensures |U| == |M| && IsSquare(U) && IsUpper(U)
    ensures forall i, j :: 0 <= i <= j < |M| ==> U[i][j] == M[i][j]
  {
    seq(|M|, i requires 0 <= i < |M| => seq(|M|, j requires 0 <= j < |M| => if i <= j then M[i][j] else 0.0))
  }

  /** M and N have the same shape and the same entries on and below the diagonal. */
  predicate AgreeOnLower(M: Matrix, N: Matrix)
  {
    IsSquare(M) && IsSquare(N) && |M| == |N| &&
    forall i, j :: 0 <= j <= i < |M| ==> M[i][j] == N[i][j]
  }

  /** M and N have the same shape and the same entries on and above the diagonal. */
  predicate AgreeOnUpper(M: Matrix, N: Matrix)
  {
    IsSquare(M) && IsSquare(N) && |M| == |N| &&
    forall i, j :: 0 <= i <= j < |M| ==> M[i][j] == N[i][j]
  }

  // ---------------------------------------------------------------------
  // The 1×1 shortcut

  /** A 1×1 system is divided out whatever the hint, even one that would
      otherwise be refused, and the quotient solves it. */
  lemma OneByOne(M: Matrix, y: Vector, pivot: Option<int>)
    requires IsSquare(M) && |M| == 1 && |y| == 1 && NonZeroDiagonal(M)
    ensures Solve(M, y, pivot) == Ok([y[0] / M[0][0]])
    ensures MatVec(M, [y[0] / M[0][0]]) == y
  {
    var x := [y[0] / M[0][0]];
    assert M[0][0] * x[0] == y[0];
    assert Dot(M[0], x) == M[0][0] * x[0] + Dot(M[0][1..], x[1..]);
    assert MatVec(M, x)[0] == y[0];
    assert MatVec(M, x) == y;
  }

  // ---------------------------------------------------------------------
  // Orientation and errors

  /** Past the 1×1 case the call fails exactly when the hint is missing and M
      is neither lower nor upper triangular, or when the hint is neither 0
      nor -1; the two failures are told apart. */
  lemma ErrorCases(M: Matrix, y: Vector, pivot: Option<int>)
    requires IsSquare(M) && |M| >= 1 && |y| == |M| && NonZeroDiagonal(M)
    ensures Solve(M, y, pivot) == Err(NotTriangular) <==>
              |M| > 1 && pivot == None && !IsLower(M) && !IsUpper(M)
    ensures Solve(M, y, pivot) == Err(BadPivot) <==>
              |M| > 1 && pivot.Some? && pivot.value != 0 && pivot.value != -1
    ensures Solve(M, y, pivot).Err? ==>
              |M| > 1 && ((pivot == None && !IsLower(M) && !IsUpper(M)) ||
                          (pivot.Some? && pivot.value != 0 && pivot.value != -1))
  {
  }

  /** Without a hint, a lower triangular M (a diagonal one included) is
      solved exactly as with hint 0, and an upper triangular M that is not
      lower exactly as with hint -1. */
  lemma InferredMatchesExplicit(M: Matrix, y: Vector)
    requires IsSquare(M) && |M| >= 1 && |y| == |M| && NonZeroDiagonal(M)
    ensures IsLower(M) ==> Solve(M, y, None) == Solve(M, y, Some(0))
    ensures !IsLower(M) && IsUpper(M) ==> Solve(M, y, None) == Solve(M, y, Some(-1))
  {
    if |M| > 1 && (IsLower(M) || IsUpper(M)) {
      OrientationDecides(M, y, None);
    }
  }

  // ---------------------------------------------------------------------
  // Correctness of the two substitutions

  /** The first row of a lower triangular system involves the first unknown only. */
  lemma ForwardFirstRow(M: Matrix, y: Vector, x0: real, rest: Vector)
    requires IsSquare(M) && |M| > 1 && |y| == |M| && IsLower(M)
    requires |rest| == |M| - 1 && M[0][0] * x0 == y[0]
    ensures Dot(M[0], [x0] + rest) == y[0]
  {
    DotCons(M[0], x0, rest);
    DotZero(M[0][1..], rest);
  }

  /** One level of forward substitution is correct: the first unknown put in
      front of a solution of the trailing system solves the whole system. */
  lemma ForwardRows(M: Matrix, y: Vector, x0: real, rest: Vector)
    requires IsSquare(M) && |M| > 1 && |y| == |M| && IsLower(M)
    requires |rest| == |M| - 1 && M[0][0] * x0 == y[0]
    requires MatVec(Trailing(M), rest) == Eliminate(M, y, 0, x0)[1..]
    ensures MatVec(M, [x0] + rest) == y
  {
    var x := [x0] + rest;
    forall i | 0 <= i < |M|
      ensures MatVec(M, x)[i] == y[i]
    {
      if i == 0 {
        ForwardFirstRow(M, y, x0, rest);
      } else {
        TrailingRow(M, rest, i - 1);
        EliminateFirstRow(M, y, x0, rest, i);
      }
    }
  }

  /** Hint 0 is forward substitution: for lower triangular M with non-zero
      diagonal the result solves M·x = y. */
  lemma {:induction false} ForwardSubstitutionSolves(M: Matrix, y: Vector)
    requires IsSquare(M) && |M| >= 1 && |y| == |M| && NonZeroDiagonal(M) && IsLower(M)
    ensures Solve(M, y, Some(0)).Ok? && MatVec(M, Solve(M, y, Some(0)).value) == y
    decreases |M|
  {
    var n := |M|;
    if n == 1 {
      OneByOne(M, y, Some(0));
    } else {
      var yNext := Eliminate(M, y, 0, y[0] / M[0][0])[1..];
      ForwardSubstitutionSolves(Trailing(M), yNext);
      var rest := Solve(Trailing(M), yNext, Some(0)).value;
      ForwardStep(M, y, rest);
      ForwardRows(M, y, y[0] / M[0][0], rest);
    }
  }

  /** The last row of an upper triangular system involves the last unknown only. */
  lemma BackLastRow(M: Matrix, y: Vector, xl: real, rest: Vector)
    requires IsSquare(M) && |M| > 1 && |y| == |M| && IsUpper(M)
    requires |rest| == |M| - 1 && M[|M| - 1][|M| - 1] * xl == y[|M| - 1]
    ensures Dot(M[|M| - 1], rest + [xl]) == y[|M| - 1]
  {
    var n := |M|;
    var x := rest + [xl];
    assert x[..n - 1] == rest;
    DotSplitLast(M[n - 1], x);
    DotZero(M[n - 1][..n - 1], rest);
  }

  /** One level of back substitution is correct: the last unknown put after
      a solution of the leading system solves the whole system. */
  lemma BackRows(M: Matrix, y: Vector, xl: real, rest: Vector)
    requires IsSquare(M) && |M| > 1 && |y| == |M| && IsUpper(M)
    requires |rest| == |M| - 1 && M[|M| - 1][|M| - 1] * xl == y[|M| - 1]
    requires MatVec(Leading(M), rest) == Eliminate(M, y, |M| - 1, xl)[..|M| - 1]
    ensures MatVec(M, rest + [xl]) == y
  {
    var n := |M|;
    var x := rest + [xl];
    forall i | 0 <= i < n
      ensures MatVec(M, x)[i] == y[i]
    {
      if i == n - 1 {
        BackLastRow(M, y, xl, rest);
      } else {
        LeadingRow(M, rest, i);
        EliminateLastRow(M, y, xl, rest, i);
      }
    }
  }

  /** Hint -1 is back substitution: for upper triangular M with non-zero
      diagonal the result solves M·x = y. */
  lemma {:induction false} BackSubstitutionSolves(M: Matrix, y: Vector)
    requires IsSquare(M) && |M| >= 1 && |y| == |M| && NonZeroDiagonal(M) && IsUpper(M)
    ensures Solve(M, y, Some(-1)).Ok? && MatVec(M, Solve(M, y, Some(-1)).value) == y
    decreases |M|
  {
    var n := |M|;
    if n == 1 {
      OneByOne(M, y, Some(-1));
    } else {
      var yNext := Eliminate(M, y, n - 1, y[n - 1] / M[n - 1][n - 1])[..n - 1];
      BackSubstitutionSolves(Leading(M), yNext);
      var rest := Solve(Leading(M), yNext, Some(-1)).value;
      BackwardStep(M, y, rest);
      BackRows(M, y, y[n - 1] / M[n - 1][n - 1], rest);
    }
  }

  /** Without a hint the call succeeds exactly on 1×1 systems and on
      triangular matrices, and whenever it succeeds it solves M·x = y. */
  lemma SolveCorrect(M: Matrix, y: Vector)
    requires IsSquare(M) && |M| >= 1 && |y| == |M| && NonZeroDiagonal(M)
    ensures Solve(M, y, None).Ok? <==> |M| == 1 || IsLower(M) || IsUpper(M)
    ensures Solve(M, y, None).Ok? ==> MatVec(M, Solve(M, y, None).value) == y
  {
    if |M| == 1 {
      OneByOne(M, y, None);
    } else if IsLower(M) {
      InferredMatchesExplicit(M, y);
      ForwardSubstitutionSolves(M, y);
    } else if IsUpper(M) {
      InferredMatchesExplicit(M, y);
      BackSubstitutionSolves(M, y);
    } else {
      ErrorCases(M, y, None);
    }
  }

  // ---------------------------------------------------------------------
  // Uniqueness: the result is the solution

  lemma Cancel(m: real, a: real, b: real)
    requires m != 0.0 && m * a == m * b
    ensures a == b
  {
  }

  /** A lower triangular matrix with non-zero diagonal maps distinct vectors
      to distinct vectors. */
  lemma {:induction false} LowerSolutionUnique(M: Matrix, a: Vector, b: Vector)
    requires IsSquare(M) && |M| >= 1 && |a| == |M| && |b| == |M|
    requires NonZeroDiagonal(M) && IsLower(M)
    requires MatVec(M, a) == MatVec(M, b)
    ensures a == b
    decreases |M|
  {
    var n := |M|;
    var m := M[0][0];
    assert Dot(M[0], a) == m * a[0] + Dot(M[0][1..], a[1..]);
    assert Dot(M[0], b) == m * b[0] + Dot(M[0][1..], b[1..]);
    DotZero(M[0][1..], a[1..]);
    DotZero(M[0][1..], b[1..]);
    assert MatVec(M, a)[0] == MatVec(M, b)[0];
    Cancel(m, a[0], b[0]);
    if n > 1 {
      var T := Trailing(M);
      forall i | 0 <= i < n - 1
        ensures MatVec(T, a[1..])[i] == MatVec(T, b[1..])[i]
      {
        assert M[i + 1][1..] == T[i];
        assert Dot(M[i + 1], a) == M[i + 1][0] * a[0] + Dot(T[i], a[1..]);
        assert Dot(M[i + 1], b) == M[i + 1][0] * b[0] + Dot(T[i], b[1..]);
        assert MatVec(M, a)[i + 1] == MatVec(M, b)[i + 1];
      }
      LowerSolutionUnique(T, a[1..], b[1..]);
      assert a == [a[0]] + a[1..];
      assert b == [b[0]] + b[1..];
    } else {
      assert a == [a[0]];
      assert b == [b[0]];
    }
  }

  /** The last row of an upper triangular M·a is M[n-1][n-1] * a[n-1]. */
  lemma UpperLastRow(M: Matrix, a: Vector)
    requires IsSquare(M) && |M| >= 1 && |a| == |M| && IsUpper(M)
    ensures MatVec(M, a)[|M| - 1] == M[|M| - 1][|M| - 1] * a[|M| - 1]
  {
    var n := |M|;
    DotSplitLast(M[n - 1], a);
    DotZero(M[n - 1][..n - 1], a[..n - 1]);
  }

  /** An upper triangular matrix with non-zero diagonal maps distinct vectors
      to distinct vectors. */
  lemma {:induction false} UpperSolutionUnique(M: Matrix, a: Vector, b: Vector)
    requires IsSquare(M) && |M| >= 1 && |a| == |M| && |b| == |M|
    requires NonZeroDiagonal(M) && IsUpper(M)
    requires MatVec(M, a) == MatVec(M, b)
    ensures a == b
    decreases |M|
  {
    var n := |M|;
    var m := M[n - 1][n - 1];
    UpperLastRow(M, a);
    UpperLastRow(M, b);
    assert MatVec(M, a)[n - 1] == MatVec(M, b)[n - 1];
    Cancel(m, a[n - 1], b[n - 1]);
    if n > 1 {
      var L := Leading(M);
      var a', b' := a[..n - 1], b[..n - 1];
      forall i | 0 <= i < n - 1
        ensures MatVec(L, a')[i] == MatVec(L, b')[i]
      {
        assert M[i][..n - 1] == L[i];
        DotSplitLast(M[i], a);
        DotSplitLast(M[i], b);
        assert MatVec(M, a)[i] == MatVec(M, b)[i];
      }
      UpperSolutionUnique(L, a', b');
      assert a == a[..n - 1] + [a[n - 1]];
      assert b == b[..n - 1] + [b[n - 1]];
    } else {
      assert a == [a[0]];
      assert b == [b[0]];
    }
  }

  /** For a triangular M with non-zero diagonal, any z with M·z = y is what
      the call returns without a hint. */
  lemma SolveIsTheSolution(M: Matrix, y: Vector, z: Vector)
    requires IsSquare(M) && |M| >= 1 && |y| == |M| && |z| == |M| && NonZeroDiagonal(M)
    requires IsLower(M) || IsUpper(M)
    requires MatVec(M, z) == y
    ensures Solve(M, y, None) == Ok(z)
  {
    SolveCorrect(M, y);
    var x := Solve(M, y, None).value;
    if IsLower(M) {
      LowerSolutionUnique(M, x, z);
    } else {
      UpperSolutionUnique(M, x, z);
    }
  }

  /** A diagonal matrix with non-zero diagonal gives the same answer under
      either hint. */
  lemma DiagonalEitherHint(M: Matrix, y: Vector)
    requires IsSquare(M) && |M| >= 1 && |y| == |M| && NonZeroDiagonal(M)
    requires IsLower(M) && IsUpper(M)
    ensures Solve(M, y, Some(0)) == Solve(M, y, Some(-1))
  {
    ForwardSubstitutionSolves(M, y);
    BackSubstitutionSolves(M, y);
    LowerSolutionUnique(M, Solve(M, y, Some(0)).value, Solve(M, y, Some(-1)).value);
  }

  // ---------------------------------------------------------------------
  // An explicit hint reads one triangle only

  /** With hint 0 only the diagonal and the entries below it are read. */
  lemma {:induction false} LowerTriangleOnly(M: Matrix, N: Matrix, y: Vector)
    requires AgreeOnLower(M, N) && |M| >= 1 && |y| == |M| && NonZeroDiagonal(M)
    ensures NonZeroDiagonal(N) && Solve(M, y, Some(0)) == Solve(N, y, Some(0))
    decreases |M|
  {
    var n := |M|;
    assert NonZeroDiagonal(N) by {
      forall i | 0 <= i < n ensures N[i][i] != 0.0 {
        assert M[i][i] == N[i][i];
      }
    }
    if n > 1 {
      var x0 := y[0] / M[0][0];
      assert N[0][0] == M[0][0];
      var yM := Eliminate(M, y, 0, x0)[1..];
      var yN := Eliminate(N, y, 0, x0)[1..];
      forall i | 0 <= i < n - 1 ensures yM[i] == yN[i] {
        assert M[i + 1][0] == N[i + 1][0];
      }
      assert yM == yN;
      assert AgreeOnLower(Trailing(M), Trailing(N));
      LowerTriangleOnly(Trailing(M), Trailing(N), yM);
      ForwardStep(M, y, Solve(Trailing(M), yM, Some(0)).value);
      ForwardStep(N, y, Solve(Trailing(N), yN, Some(0)).value);
    }
  }

  /** With hint -1 only the diagonal and the entries above it are read. */
  lemma {:induction false} UpperTriangleOnly(M: Matrix, N: Matrix, y: Vector)
    requires AgreeOnUpper(M, N) && |M| >= 1 && |y| == |M| && NonZeroDiagonal(M)
    ensures NonZeroDiagonal(N) && Solve(M, y, Some(-1)) == Solve(N, y, Some(-1))
    decreases |M|
  {
    var n := |M|;
    assert NonZeroDiagonal(N) by {
      forall i | 0 <= i < n ensures N[i][i] != 0.0 {
        assert M[i][i] == N[i][i];
      }
    }
    if n > 1 {
      var xl := y[n - 1] / M[n - 1][n - 1];
      assert N[n - 1][n - 1] == M[n - 1][n - 1];
      var yM := Eliminate(M, y, n - 1, xl)[..n - 1];
      var yN := Eliminate(N, y, n - 1, xl)[..n - 1];
      forall i | 0 <= i < n - 1 ensures yM[i] == yN[i] {
        assert M[i][n - 1] == N[i][n - 1];
      }
      assert yM == yN;
      assert AgreeOnUpper(Leading(M), Leading(N));
      UpperTriangleOnly(Leading(M), Leading(N), yM);
      BackwardStep(M, y, Solve(Leading(M), yM, Some(-1)).value);
      BackwardStep(N, y, Solve(Leading(N), yN, Some(-1)).value);
    }
  }

  /** Hint 0 on any square M with non-zero diagonal, triangular or not,
      solves the system of M's lower triangle. */
  lemma ForwardSolvesLowerPart(M: Matrix, y: Vector)
    requires IsSquare(M) && |M| >= 1 && |y| == |M| && NonZeroDiagonal(M)
    ensures Solve(M, y, Some(0)).Ok?
    ensures MatVec(LowerPart(M), Solve(M, y, Some(0)).value) == y
  {
    var L := LowerPart(M);
    LowerTriangleOnly(M, L, y);
    ForwardSubstitutionSolves(L, y);
  }

  /** Hint -1 on any square M with non-zero diagonal, triangular or not,
      solves the system of M's upper triangle. */
  lemma BackSolvesUpperPart(M: Matrix, y: Vector)
    requires IsSquare(M) && |M| >= 1 && |y| == |M| && NonZeroDiagonal(M)
    ensures Solve(M, y, Some(-1)).Ok?
    ensures MatVec(UpperPart(M), Solve(M, y, Some(-1)).value) == y
  {
    var U := UpperPart(M);
    UpperTriangleOnly(M, U, y);
    BackSubstitutionSolves(U, y);
  }
}
