/** Dense real matrices and vectors as sequences, with the shape predicates,
    the sub-matrix and sub-vector slices, and the matrix-vector product that
    the triangular solver works with. A matrix is a sequence of rows. */
module Matrices {

  type Vector = seq<real>
  type Matrix = seq<seq<real>>

  /** Every row of M has as many entries as M has rows. */
  predicate IsSquare(M: Matrix)
  {
    forall i :: 0 <= i < |M| ==> |M[i]| == |M|
  }

  /** Every entry strictly above the main diagonal is zero. */
  predicate IsLower(M: Matrix)
    requires IsSquare(M)
  {
    forall i, j :: 0 <= i < j < |M| ==> M[i][j] == 0.0
  }

  /** Every entry strictly below the main diagonal is zero. */
  predicate IsUpper(M: Matrix)
    requires IsSquare(M)
  {
    forall i, j :: 0 <= j < i < |M| ==> M[i][j] == 0.0
  }

  predicate NonZeroDiagonal(M: Matrix)
    requires IsSquare(M)
  {
    forall i :: 0 <= i < |M| ==> M[i][i] != 0.0
  }

  /** Inner product of two vectors of equal length. */
  function Dot(a: Vector, b: Vector): real
    requires |a| == |b|
    decreases |a|
  {
    if |a| == 0 then 0.0 else a[0] * b[0] + Dot(a[1..], b[1..])
  }

  /** The product M·x. */
  function MatVec(M: Matrix, x: Vector): Vector
    requires IsSquare(M) && |x| == |M|
  {
    seq(|M|, i requires 0 <= i < |M| => Dot(M[i], x))
  }

  /** M[1:, 1:]: M without its first row and first column. */
  function Trailing(M: Matrix): (r: Matrix)
    requires IsSquare(M) && |M| >= 1
    ensures |r| == |M| - 1 && IsSquare(r)
    ensures forall i, j :: 0 <= i < |r| && 0 <= j < |r| ==> r[i][j] == M[i + 1][j + 1]
    ensures IsLower(M) ==> IsLower(r)
    ensures IsUpper(M) ==> IsUpper(r)
    ensures NonZeroDiagonal(M) ==> NonZeroDiagonal(r)
  {
    seq(|M| - 1, i requires 0 <= i < |M| - 1 => M[i + 1][1..])
  }

  /** M[:-1, :-1]: M without its last row and last column. */
  function Leading(M: Matrix): (r: Matrix)
    requires IsSquare(M) && |M| >= 1
    ensures |r| == |M| - 1 && IsSquare(r)
    ensures forall i, j :: 0 <= i < |r| && 0 <= j < |r| ==> r[i][j] == M[i][j]
    ensures IsLower(M) ==> IsLower(r)
    ensures IsUpper(M) ==> IsUpper(r)
    ensures NonZeroDiagonal(M) ==> NonZeroDiagonal(r)
  {
    seq(|M| - 1, i requires 0 <= i < |M| - 1 => M[i][..|M| - 1])
  }

  /** Row i of M[1:, 1:]·x is row i + 1 of M, without its first entry, times x. */
  lemma TrailingRow(M: Matrix, x: Vector, i: nat)
    requires IsSquare(M) && |M| >= 1 && |x| == |M| - 1 && i < |M| - 1
    ensures MatVec(Trailing(M), x)[i] == Dot(M[i + 1][1..], x)
  {
    assert Trailing(M)[i] == M[i + 1][1..];
  }

  /** Row i of M[:-1, :-1]·x is row i of M, without its last entry, times x. */
  lemma LeadingRow(M: Matrix, x: Vector, i: nat)
    requires IsSquare(M) && |M| >= 1 && |x| == |M| - 1 && i < |M| - 1
    ensures MatVec(Leading(M), x)[i] == Dot(M[i][..|M| - 1], x)
  {
    assert Leading(M)[i] == M[i][..|M| - 1];
  }

  /** y - v * M[:, k]: the right-hand side once the unknown k, worth v, has
      been moved over from every equation. */
  function Eliminate(M: Matrix, y: Vector, k: nat, v: real): (r: Vector)
    requires IsSquare(M) && |y| == |M| && k < |M|
    ensures |r| == |y|
    ensures forall i {:trigger r[i]} :: 0 <= i < |y| ==> r[i] + M[i][k] * v == y[i]
  {
    seq(|y|, i requires 0 <= i < |y| => y[i] - M[i][k] * v)
  }

  /** Once the first unknown is fixed at v, row i > 0 of M·([v] + rest) = y
      holds exactly when the reduced row of M[1:, 1:] holds for the updated
      right-hand side. */
  lemma EliminateFirstRow(M: Matrix, y: Vector, v: real, rest: Vector, i: nat)
    requires IsSquare(M) && |M| > 1 && |y| == |M| && |rest| == |M| - 1 && 0 < i < |M|
    ensures Dot(M[i], [v] + rest) == y[i] <==> Dot(M[i][1..], rest) == Eliminate(M, y, 0, v)[i]
  {
    DotCons(M[i], v, rest);
  }

  /** Once the last unknown is fixed at v, row i < n - 1 of M·(rest + [v]) = y
      holds exactly when the reduced row of M[:-1, :-1] holds for the updated
      right-hand side. */
  lemma EliminateLastRow(M: Matrix, y: Vector, v: real, rest: Vector, i: nat)
    requires IsSquare(M) && |M| > 1 && |y| == |M| && |rest| == |M| - 1 && i < |M| - 1
    ensures Dot(M[i], rest + [v]) == y[i] <==> Dot(M[i][..|M| - 1], rest) == Eliminate(M, y, |M| - 1, v)[i]
  {
    var n := |M|;
    assert |M[i]| == n && |rest| == n - 1;
    assert Eliminate(M, y, n - 1, v)[i] + M[i][n - 1] * v == y[i];
    DotSnoc(M[i], rest, v);
  }

  /** A vector that is zero everywhere contributes nothing to a dot product. */
  lemma {:induction false} DotZero(a: Vector, b: Vector)
    requires |a| == |b|
    requires forall k :: 0 <= k < |a| ==> a[k] == 0.0
    ensures Dot(a, b) == 0.0
  {
    if |a| > 0 {
      DotZero(a[1..], b[1..]);
    }
  }

  /** The first term of a dot product, split off. */
  lemma DotCons(a: Vector, v: real, b: Vector)
    requires |a| == |b| + 1
    ensures Dot(a, [v] + b) == a[0] * v + Dot(a[1..], b)
  {
    assert ([v] + b)[1..] == b;
  }

  /** A dot product splits off its last term as well as its first. */
  lemma {:induction false} DotSplitLast(a: Vector, b: Vector)
    requires |a| == |b| && |a| >= 1
    ensures Dot(a, b) == Dot(a[..|a| - 1], b[..|b| - 1]) + a[|a| - 1] * b[|b| - 1]
  {
    var n := |a|;
    if n > 1 {
      var a', b' := a[..n - 1], b[..n - 1];
      DotSplitLast(a[1..], b[1..]);
      assert a[1..][..n - 2] == a'[1..];
      assert b[1..][..n - 2] == b'[1..];
      assert Dot(a', b') == a[0] * b[0] + Dot(a'[1..], b'[1..]);
    }
  }

  /** The last term of a dot product, split off from a vector built by appending. */
  lemma DotSnoc(a: Vector, b: Vector, v: real)
    requires |a| == |b| + 1
    ensures Dot(a, b + [v]) == Dot(a[..|b|], b) + a[|b|] * v
  {
    var x := b + [v];
    assert x[..|b|] == b;
    DotSplitLast(a, x);
  }
}
