/** The triangular solver of veriflow.linalg: given a square matrix M, a
    right-hand side y and an optional orientation hint, find x with M·x = y by
    eliminating one unknown at a time and recursing on the smaller system.

    The hint is an optional integer, as in the source: 0 asks for forward
    substitution (M treated as lower triangular), -1 for back substitution
    (M treated as upper triangular, -1 naming the last index), and anything
    else is refused. Arithmetic is exact, over the reals. */
module Linalg {

  import opened Matrices

  datatype Option<+T> = None | Some(value: T)

  /** The two ways the solver refuses its input. */
  datatype SolveError =
    | NotTriangular  // no hint, and M is neither lower nor upper triangular
    | BadPivot       // a hint other than 0 or -1

  datatype Result<+T> = Ok(value: T) | Err(error: SolveError) {
    predicate IsFailure() { Err? }

    function PropagateFailure<U>(): Result<U>
      requires Err?
    {
      Err(error)
    }

    function Extract(): T
      requires Ok?
    {
      value
    }
  }

  /** The orientation check: with no hint, M is taken as lower when all
      entries above the diagonal are zero (this test comes first, so a
      diagonal matrix is lower), else as upper when all entries below are
      zero; an explicit hint is accepted as it is, without looking at M, as
      long as it is 0 or -1. */
  function Orient(M: Matrix, pivot: Option<int>): (r: Result<int>)
    requires IsSquare(M)
    ensures r == Ok(0) <==> pivot == Some(0) || (pivot == None && IsLower(M))
    ensures r == Ok(-1) <==> pivot == Some(-1) || (pivot == None && !IsLower(M) && IsUpper(M))
    ensures r == Err(NotTriangular) <==> pivot == None && !IsLower(M) && !IsUpper(M)
    ensures r == Err(BadPivot) <==> pivot.Some? && pivot.value != 0 && pivot.value != -1
  {
    match pivot
    case None =>
      if IsLower(M) then Ok(0)
      else if IsUpper(M) then Ok(-1)
      else Err(NotTriangular)
    case Some(p) =>
      if p == 0 || p == -1 then Ok(p) else Err(BadPivot)
  }

  /** solve_triangular. A 1×1 system is divided out before the hint or the
      matrix is looked at. Otherwise the unknown at the pivot position is
      solved, its column is moved to the right-hand side, and the system
      without the pivot row and column is solved with the same hint. */
  function Solve(M: Matrix, y: Vector, pivot: Option<int>): (r: Result<Vector>)
    requires IsSquare(M) && |M| >= 1 && |y| == |M| && NonZeroDiagonal(M)
    ensures r.Ok? ==> |r.value| == |y|
    ensures pivot == Some(0) || pivot == Some(-1) ==> r.Ok?
    decreases |M|
  {
    var n := |M|;
    if n == 1 then
      Ok([y[0] / M[0][0]])
    else
      var p :- Orient(M, pivot);
      if p == 0 then
        var x0 := y[0] / M[0][0];
        var rest := Solve(Trailing(M), Eliminate(M, y, 0, x0)[1..], Some(0)).value;
        Ok([x0] + rest)
      else
        var xl := y[n - 1] / M[n - 1][n - 1];
        var rest := Solve(Leading(M), Eliminate(M, y, n - 1, xl)[..n - 1], Some(-1)).value;
        Ok(rest + [xl])
  }

  /** Past the 1×1 case, Solve depends on the hint only through the
      orientation it settles on. */
  lemma OrientationDecides(M: Matrix, y: Vector, pivot: Option<int>)
    requires IsSquare(M) && |M| > 1 && |y| == |M| && NonZeroDiagonal(M)
    requires Orient(M, pivot).Ok?
    ensures Solve(M, y, pivot) == Solve(M, y, Some(Orient(M, pivot).value))
  {
  }

  /** One level of forward substitution: once the smaller system is solved,
      Solve puts the first unknown in front of its solution. */
  lemma ForwardStep(M: Matrix, y: Vector, rest: Vector)
    requires IsSquare(M) && |M| > 1 && |y| == |M| && NonZeroDiagonal(M)
    requires Solve(Trailing(M), Eliminate(M, y, 0, y[0] / M[0][0])[1..], Some(0)) == Ok(rest)
    ensures Solve(M, y, Some(0)) == Ok([y[0] / M[0][0]] + rest)
  {
    var x0 := y[0] / M[0][0];
    var yNext := Eliminate(M, y, 0, x0)[1..];
    assert Solve(M, y, Some(0)) == Ok([x0] + Solve(Trailing(M), yNext, Some(0)).value);
  }

  /** One level of back substitution: once the smaller system is solved,
      Solve puts the last unknown after its solution. */
  lemma BackwardStep(M: Matrix, y: Vector, rest: Vector)
    requires IsSquare(M) && |M| > 1 && |y| == |M| && NonZeroDiagonal(M)
    requires var n := |M|;
             Solve(Leading(M), Eliminate(M, y, n - 1, y[n - 1] / M[n - 1][n - 1])[..n - 1], Some(-1)) == Ok(rest)
    ensures Solve(M, y, Some(-1)) == Ok(rest + [y[|M| - 1] / M[|M| - 1][|M| - 1]])
  {
  }

  lemma SpliceFirst(before: Vector, rest: Vector)
    requires |before| == |rest| + 1
    ensures before[..1] + rest + before[|before|..] == [before[0]] + rest
  {
  }

  lemma SpliceLast(before: Vector, rest: Vector)
    requires |before| == |rest| + 1
    ensures before[..0] + rest + before[|rest|..] == rest + [before[|rest|]]
  {
  }

  /** x[lo:lo + len(s)] = s: overwrite a stretch of x with the entries of s,
      leaving the rest of x as it was. */
  method AssignSlice(x: array<real>, lo: nat, s: array<real>)
    requires x != s && lo + s.Length <= x.Length
    modifies x
    ensures x[..] == old(x[..])[..lo] + s[..] + old(x[..])[lo + s.Length..]
  {
    forall i | lo <= i < lo + s.Length {
      x[i] := s[i - lo];
    }
  }

  /** solve_triangular as the source runs it: a 1×1 system is divided out,
      otherwise the hint is checked or inferred and Substitute fills the
      solution. M and y are values, so they are only read. */
  method SolveTriangular(M: Matrix, y: Vector, pivot: Option<int>) returns (r: Result<array<real>>)
    requires IsSquare(M) && |M| >= 1 && |y| == |M| && NonZeroDiagonal(M)
    ensures r.Err? ==> Solve(M, y, pivot) == Err(r.error)
    ensures r.Ok? ==> fresh(r.value) && Solve(M, y, pivot) == Ok(r.value[..])
    decreases |M|, 1
  {
    if |M| == 1 {
      var x := new real[1];
      x[0] := y[0] / M[0][0];
      assert x[..] == [x[0]];
      return Ok(x);
    }
    var p :- Orient(M, pivot);
    var x := Substitute(M, y, p);
    OrientationDecides(M, y, pivot);
    return Ok(x);
  }

  /** The body of solve_triangular after the orientation check: a fresh zero
      buffer x receives the pivot unknown and then, by slice assignment, the
      solution of the smaller system. */
  method Substitute(M: Matrix, y: Vector, p: int) returns (x: array<real>)
    requires IsSquare(M) && |M| > 1 && |y| == |M| && NonZeroDiagonal(M)
    requires p == 0 || p == -1
    ensures fresh(x) && Solve(M, y, Some(p)) == Ok(x[..])
    decreases |M|, 0
  {
    var n := |M|;
    x := new real[n](_ => 0.0);
    if p == 0 {
      var x0 := y[0] / M[0][0];
      x[0] := x0;
      var sub := SolveTriangular(Trailing(M), Eliminate(M, y, 0, x0)[1..], Some(0));
      var s := sub.value;
      ghost var rest := s[..];
      ghost var before := x[..];
      AssignSlice(x, 1, s);
      assert x[..] == before[..1] + rest + before[n..];
      SpliceFirst(before, rest);
      ForwardStep(M, y, rest);
    } else {
      var xl := y[n - 1] / M[n - 1][n - 1];
      x[n - 1] := xl;
      var sub := SolveTriangular(Leading(M), Eliminate(M, y, n - 1, xl)[..n - 1], Some(-1));
      var s := sub.value;
      ghost var rest := s[..];
      ghost var before := x[..];
      AssignSlice(x, 0, s);
      assert x[..] == before[..0] + rest + before[n - 1..];
      SpliceLast(before, rest);
      BackwardStep(M, y, rest);
    }
  }
}
