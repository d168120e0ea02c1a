/** The worked examples of solve_triangular: a 1×1 system, a lower and an
    upper triangular 2×2 system found without a hint, and the two refusals. */
module LinalgExamples {

  import opened Matrices
  import opened Linalg
  import opened LinalgProperties

  /** [[2]]·x = [6] gives x = [3]. */
  lemma ExampleScalar()
    ensures Solve([[2.0]], [6.0], None) == Ok([3.0])
  {
  }

  /** [[1, 0], [2, 3]] is found lower triangular; x = [1, 2]. */
  lemma ExampleLower()
    ensures Solve([[1.0, 0.0], [2.0, 3.0]], [1.0, 8.0], None) == Ok([1.0, 2.0])
  {
    var L := [[1.0, 0.0], [2.0, 3.0]];
    assert Dot(L[0], [1.0, 2.0]) == 1.0;
    assert Dot(L[1], [1.0, 2.0]) == 8.0;
    assert MatVec(L, [1.0, 2.0]) == [1.0, 8.0];
    SolveIsTheSolution(L, [1.0, 8.0], [1.0, 2.0]);
  }

  /** [[2, 1], [0, 3]] is not lower but upper triangular; x = [1.5, 2]. */
  lemma ExampleUpper()
    ensures Solve([[2.0, 1.0], [0.0, 3.0]], [5.0, 6.0], None) == Ok([1.5, 2.0])
  {
    var U := [[2.0, 1.0], [0.0, 3.0]];
    assert U[1][0] == 0.0 && U[0][1] != 0.0;
    assert Dot(U[0], [1.5, 2.0]) == 5.0;
    assert Dot(U[1], [1.5, 2.0]) == 6.0;
    assert MatVec(U, [1.5, 2.0]) == [5.0, 6.0];
    SolveIsTheSolution(U, [5.0, 6.0], [1.5, 2.0]);
  }

  /** A full 2×2 matrix without a hint is refused as not triangular. */
  lemma ExampleNotTriangular()
    ensures Solve([[1.0, 2.0], [3.0, 4.0]], [1.0, 1.0], None) == Err(NotTriangular)
  {
    var M := [[1.0, 2.0], [3.0, 4.0]];
    assert M[0][1] != 0.0 && M[1][0] != 0.0;
  }

  /** Hint 1 on a 2×2 system is refused, even for the identity matrix. */
  lemma ExampleBadPivot()
    ensures Solve([[1.0, 0.0], [0.0, 1.0]], [1.0, 1.0], Some(1)) == Err(BadPivot)
  {
  }

  /** Hint 1 on a 1×1 system is not looked at: the division happens first. */
  lemma ExampleScalarIgnoresHint()
    ensures Solve([[4.0]], [2.0], Some(1)) == Ok([0.5])
  {
  }
}
