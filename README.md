# solve_triangular, modelled and proved in Dafny

VeriFlow's `solve_triangular` (src/veriflow/linalg.py) solves M·x = y for a
square triangular matrix M. It does not call a library triangular solver.
If M is 1×1 it returns `y / M`. Otherwise it settles an orientation: an
optional `pivot` hint is either taken as given (0 or -1) or inferred from M.
Lower triangular is tested first, upper second, and anything else raises an
error. It then solves the unknown at the pivot position (the first for 0,
the last for -1) and moves that unknown's column to the right-hand side.
It recurses on the system without the pivot row and column, passing the
same hint explicitly, and writes the sub-solution into the rest of a fresh
zero vector.

The project has four modules:

- `Matrices` (matrices.dfy) holds the data model:
  - vectors as `seq<real>` and matrices as sequences of rows;
  - the shape predicates (square, lower, upper, non-zero diagonal);
  - the dot product and M·x;
  - the slices `M[1:, 1:]` (`Trailing`) and `M[:-1, :-1]` (`Leading`);
  - the right-hand-side update `y - v * M[:, k]` (`Eliminate`).
- `Linalg` (linalg.dfy) holds the solver:
  - the errors, `NotTriangular` and `BadPivot`;
  - the orientation check `Orient`;
  - the recursive function `Solve`, which specifies the solver;
  - the imperative `SolveTriangular`/`Substitute`, which fill a fresh array
    by element and slice assignment, as the source does, and are proved to
    return exactly what `Solve` returns.
- `LinalgProperties` (linalg_properties.dfy) holds the promises:
  - the result solves M·x = y and is the only vector that does;
  - the errors happen exactly when they should;
  - the 1×1 shortcut ignores the hint;
  - an explicit hint agrees with inference;
  - with a hint, only one triangle of M is ever read.
- `LinalgExamples` (linalg_examples.dfy) holds the worked examples.

Arithmetic is exact (`real`), so the solution of M·x = y promised by the
docstring (lines 16-17) is stated as exact equality. The hint is
`Option<int>`: `None` is Python's `None`, and -1 names the last index, as
Python indexing does.

The 1×1 return at lines 21-22 comes before the checks at lines 24-33. So a
1×1 call with an unrecognised hint succeeds, and `OneByOne` and
`ExampleScalarIgnoresHint` state this. Both errors are a
`ValueError` in the source, told apart only by their messages. The model
makes them two cases of `SolveError`.

## Model

| member | source | states |
|---|---|---|
| Matrices.Trailing | src/veriflow/linalg.py:41-42 | `M[1:, 1:]` is square of size n-1, its entry (i, j) is M's (i+1, j+1), and it stays lower, upper and non-zero on the diagonal when M is |
| Matrices.Leading | src/veriflow/linalg.py:45-46 | `M[:-1, :-1]` is square of size n-1, its entry (i, j) is M's (i, j), and it stays lower, upper and non-zero on the diagonal when M is |
| Matrices.EliminateFirstRow | src/veriflow/linalg.py:39-43 | with the first unknown fixed at v, row i > 0 of M·x = y holds exactly when row i of M without its first entry (row i-1 of `M[1:, 1:]`) times the remaining unknowns equals entry i of `y - v * M[:, 0]` (both directions) |
| Matrices.EliminateLastRow | src/veriflow/linalg.py:39-47 | with the last unknown fixed at v, row i < n-1 of M·x = y holds exactly when row i of `M[:-1, :-1]` times the remaining unknowns equals entry i of `y - v * M[:, n-1]` (both directions) |
| Matrices.TrailingRow | src/veriflow/linalg.py:41-43 | row i of `M[1:, 1:]`·x equals row i+1 of M, without its first entry, times x |
| Matrices.LeadingRow | src/veriflow/linalg.py:45-47 | row i of `M[:-1, :-1]`·x equals row i of M, without its last entry, times x |
| Linalg.Orient | src/veriflow/linalg.py:24-33 | both directions for each outcome: orientation 0 exactly for hint 0 or no hint with M lower; -1 exactly for hint -1 or no hint with M upper and not lower; `NotTriangular` exactly for no hint with M neither; `BadPivot` exactly for any other hint |
| Linalg.Solve | src/veriflow/linalg.py:20-49 | a successful result has y's length, and hint 0 or -1 never fails |
| Linalg.OrientationDecides | src/veriflow/linalg.py:24-33 | past the 1×1 case the result depends on the hint only through the settled orientation |
| Linalg.ForwardStep | src/veriflow/linalg.py:36-43 | with hint 0 the result is `y[0] / M[0][0]` followed by the solution of the trailing system for the updated y |
| Linalg.BackwardStep | src/veriflow/linalg.py:36-47 | with hint -1 the result is the solution of the leading system for the updated y followed by `y[n-1] / M[n-1][n-1]` |
| Linalg.AssignSlice | src/veriflow/linalg.py:43-47 | slice assignment, as in `x[1:] = …` and `x[:-1] = …`, replaces exactly positions lo..lo+len(s) of x by s and leaves the rest of x as it was |
| Linalg.SolveTriangular | src/veriflow/linalg.py:6-49 | the imperative solver returns a fresh array holding exactly `Solve`'s result, or exactly `Solve`'s error |
| Linalg.Substitute | src/veriflow/linalg.py:36-49 | a fresh zero buffer filled with the pivot unknown and then the recursive sub-solution equals `Solve` with that orientation |
| LinalgProperties.OneByOne | src/veriflow/linalg.py:20-22 | a 1×1 system returns `y[0] / M[0][0]` whatever the hint, even a hint that is otherwise refused, and that value solves it |
| LinalgProperties.ErrorCases | src/veriflow/linalg.py:24-33 | the call fails with `NotTriangular` exactly when n > 1, there is no hint and M is neither lower nor upper; with `BadPivot` exactly when n > 1 and the hint is neither 0 nor -1; any failure has n > 1 and one of those two causes |
| LinalgProperties.InferredMatchesExplicit | src/veriflow/linalg.py:24-29 | without a hint a lower M (a diagonal one included) is solved exactly as with hint 0, and an upper M that is not lower exactly as with hint -1 |
| LinalgProperties.ForwardRows | src/veriflow/linalg.py:36-43 | for lower M, the first unknown put in front of any solution of the trailing system solves M·x = y |
| LinalgProperties.ForwardSubstitutionSolves | src/veriflow/linalg.py:40-43 | hint 0 on a lower M with non-zero diagonal succeeds and its result x satisfies M·x = y |
| LinalgProperties.BackRows | src/veriflow/linalg.py:36-47 | for upper M, the last unknown put after any solution of the leading system solves M·x = y |
| LinalgProperties.BackSubstitutionSolves | src/veriflow/linalg.py:44-47 | hint -1 on an upper M with non-zero diagonal succeeds and its result x satisfies M·x = y |
| LinalgProperties.SolveCorrect | src/veriflow/linalg.py:6-17 | without a hint the call succeeds exactly when M is 1×1, lower or upper, and a success solves M·x = y |
| LinalgProperties.LowerSolutionUnique | src/veriflow/linalg.py:11-17 | a lower M with non-zero diagonal never maps two different vectors to the same product |
| LinalgProperties.UpperSolutionUnique | src/veriflow/linalg.py:11-17 | an upper M with non-zero diagonal never maps two different vectors to the same product |
| LinalgProperties.SolveIsTheSolution | src/veriflow/linalg.py:6-17 | for triangular M with non-zero diagonal, any z with M·z = y is exactly what the call returns without a hint |
| LinalgProperties.DiagonalEitherHint | src/veriflow/linalg.py:26-29 | for a diagonal M both hints give the same result, so testing lower first changes nothing for it |
| LinalgProperties.LowerTriangleOnly | src/veriflow/linalg.py:13-15 | with hint 0, two matrices that agree on and below the diagonal give the same result: no entry above it is read |
| LinalgProperties.UpperTriangleOnly | src/veriflow/linalg.py:13-15 | with hint -1, two matrices that agree on and above the diagonal give the same result: no entry below it is read |
| LinalgProperties.ForwardSolvesLowerPart | src/veriflow/linalg.py:13-15 | hint 0 on any square M with non-zero diagonal, triangular or not, solves the system of M's lower triangle |
| LinalgProperties.BackSolvesUpperPart | src/veriflow/linalg.py:13-15 | hint -1 on any square M with non-zero diagonal, triangular or not, solves the system of M's upper triangle |
| LinalgExamples.ExampleLower | src/veriflow/linalg.py:26-27 | `[[1, 0], [2, 3]]` with y = `[1, 8]` and no hint gives `[1, 2]` |
| LinalgExamples.ExampleUpper | src/veriflow/linalg.py:28-29 | `[[2, 1], [0, 3]]` with y = `[5, 6]` and no hint gives `[1.5, 2]` |
| LinalgExamples.ExampleNotTriangular | src/veriflow/linalg.py:30-31 | `[[1, 2], [3, 4]]` without a hint is refused as not triangular |
| LinalgExamples.ExampleBadPivot | src/veriflow/linalg.py:32-33 | hint 1 on a 2×2 system is refused as a bad pivot |
| LinalgExamples.ExampleScalar | src/veriflow/linalg.py:21-22 | `[[2]]` with y = `[6]` gives `[3]` |
| LinalgExamples.ExampleScalarIgnoresHint | src/veriflow/linalg.py:21-22 | hint 1 on `[[4]]` with y = `[2]` is not looked at, and the result is `[0.5]` |

## Left out

- Floating point: entries are exact reals. Rounding, infinities and NaNs are not modelled. Because of that `Solve` and everything about it require a non-zero diagonal. A zero diagonal makes the source return non-finite values instead of failing. This happens for a 1×1 `M = [[0.]]` at line 22, before any check, and otherwise past the checks at lines 24-33. The checks themselves do not depend on the diagonal: without a hint, `[[0, 1], [1, 0]]` is refused at line 31, and hint 1 on any 2×2 system is refused at line 33. `Orient` states these outcomes for every square M, whatever its diagonal. `ErrorCases` and `SolveCorrect` are stated only for a non-zero diagonal, because `Solve` requires one.
- The empty system: `Solve`, `SolveTriangular`, `Substitute` and every lemma about a system require n ≥ 1. For n = 0 the source fails with an indexing error at line 37 for hint None, 0 or -1, and that error is not one of the two modelled errors. `Orient` also accepts n = 0. Like lines 24-33, it then gives orientation 0 with no hint, because `all([])` is true, and `BadPivot` for a bad hint.
- Tensor shapes, dtype, device and broadcasting are not modelled. In the 1×1 case the source's `y / M` broadcasts to a 1×1 tensor. The model returns the one-entry vector `[y[0] / M[0][0]]`.
- Shapes are not checked by the source, and the model requires a square M and a y of length n. For a 1-row M the source returns `y / M` at lines 21-22 without any check, and torch broadcasts it. So `M = [[2.]]` with `y = [4., 6.]` returns `[[2., 3.]]`, and a 1×k M is accepted as well. Such inputs are outside the model. For larger mismatched shapes, how torch's indexing and broadcasting behave is not modelled either.
- Hints are integers only. Python values that compare equal to 0 or -1 (`False`, `0.0`) and are therefore accepted by `not in [0, -1]` are not modelled.
- In-place update of tensor views: `Substitute` writes into a fresh array and copies the sub-solution in with `AssignSlice`. The source writes the result of the recursive call into a view of x. No aliasing between x and M or y arises in either case.
- Repeated inference giving the same answer needs no lemma: `Orient` and `Solve` are functions of their arguments, so two calls with equal arguments are equal.
- src/explib/hyperopt.py (hyperparameter search and experiment orchestration) is not part of this model.
