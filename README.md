# SquareMatrixTpl in Dafny

A model of CloudCompare's dense square matrix `SquareMatrixTpl`
(`CC/include/SquareMatrix.h`), with proofs about it.

The matrix is held as:
- a size `n`;
- an `n×n` row-major grid of scalars (`m_values`);
- an optional array of `n` eigenvalues, where eigenvalue `i` belongs to column `i`.

A matrix of size 0 is the "invalid" matrix. Failed operations return it.

The model is the class `SquareMatrices.SquareMatrix`:
- `n: nat`, `vals: array2<real>` and `eig: array?<real>`, with a `Valid()` predicate;
- `Cells()` reads the array as a grid value (`seq<seq<real>>`);
- `EigenValues()` reads the eigenvalues as an optional sequence.

Each method works in place on those arrays, with the same loops as the
C++. Each is proved against a specification function on grid values. Those
specification functions live in modules that follow the parts of the class:

- `Grids`: cell-wise `+`/`-`, scaling, transposition, trace, product and
  matrix–vector product, with their algebra (neutral elements, involution,
  additivity of the trace, the identity as neutral factor).
- `ArrayGrids`: arrays read as grids, and the copy and product loops.
- `Determinants`: the cofactor expansion `computeSubDet` evaluates.
  - The expansion runs over *views* (a list of row indices read from a
    column offset), just as the C++ recurses on row pointers `mat[i] + 1`.
  - The module also covers the substituted column of `deltaDeterminant`,
    the rule of Sarrus for 3×3, and the determinant of the identity and of a
    grid with a zero column.
- `Pivoting` and `GaussPivot`: what the Gauss–Jordan code of `inv`
  computes, step by step on the `n × 2n` scratch array.
  - The divisor and the elimination factor are `const Scalar&` references
    into the cell the loop is overwriting. After the first iteration the
    divisor therefore reads back as 1, and the factor as 0.
  - So only the pivot column of each row is normalised or cleared. The
    right half changes only through the row swaps.
  - `inv` returns the size-0 matrix when some pivot search fails. Otherwise
    it returns the identity with its rows permuted, which is a permutation
    matrix and not, in general, the inverse.
  - The model follows the code. `Inverse` holds the corrected algorithm,
    which reads the divisor and the factor once, and proves that whenever
    it succeeds its result is a left inverse (see Findings).
- `EigenOrder`: eigenvalue/column pairs, their multiset under column swaps,
  and the first-maximum and first-minimum indices.
- `OpenGl`: the column-major 16-slot OpenGL layout of the "from OpenGL"
  constructors and of `toGlMatrix`.
- `Quaternions`: the rotation matrix of `initFromQuaternion`, its
  orthogonality for a unit quaternion, and its trace.

Preconditions the C++ relies on silently become `requires` clauses:
- equal sizes for `+=`, `-=` and `*`;
- size at least 1 for `transpose` and `inv` (`m_matrixSize - 1` is unsigned);
- size at least 2 for the determinant;
- size 3 or 4 for `toGlMatrix`;
- size 0 or 3 for `initFromQuaternion`.

Caller-supplied output buffers become sequences that the methods return:
- the result of `apply`;
- the eigenvector of the eigen getters;
- the 16 values of `toGlMatrix`.

## Model

| member | source | states |
|---|---|---|
| SquareMatrices.SquareMatrix.constructor | CC/include/SquareMatrix.h:47-52 | a new matrix of the given size (0 for the default constructor) is zero-filled and has no eigenvalues |
| SquareMatrices.SquareMatrix.Copy | CC/include/SquareMatrix.h:57-61 | the copy has the size, the cells and the eigenvalues of the original |
| SquareMatrices.SquareMatrix.FromGl | CC/include/SquareMatrix.h:89-99 | size 3 when `rotationOnly`, else 4; cell [r][c] is M16[c*4+r]; no eigenvalues |
| SquareMatrices.FillFromGl | CC/include/SquareMatrix.h:93-97 | the import loop writes every cell [r][c] from slot c*4+r |
| SquareMatrices.SquareMatrix.Init | CC/include/SquareMatrix.h:914-951 | sets the size, a zero-filled grid of that size and no eigenvalues |
| SquareMatrices.SquareMatrix.Invalidate | CC/include/SquareMatrix.h:118-136 | the matrix becomes size 0, without eigenvalues |
| SquareMatrices.SquareMatrix.EnableEigenValues | CC/include/SquareMatrix.h:956-962 | an existing array is kept with its values (the comment at lines 954-955 says it is zeroed; see Findings); a size-0 matrix gets none; otherwise a fresh array of size n is attached; the result says whether an array is attached |
| SquareMatrices.SquareMatrix.EnableZeroedEigenValues | CC/include/SquareMatrix.h:953-962 | the behaviour the comment documents: a matrix of non-zero size ends with an attached array of n zeros, new or not; size 0 has none |
| SquareMatrices.SquareMatrix.Assign | CC/include/SquareMatrix.h:159-178 | the receiver takes B's size and cells, and B's eigenvalues when B has them; otherwise it keeps its own when the sizes matched and has none when it was reallocated |
| SquareMatrices.SquareMatrix.AddInPlace | CC/include/SquareMatrix.h:190-199 | each cell becomes old cell + B's cell, even when B is the receiver; size and eigenvalues unchanged |
| SquareMatrices.SquareMatrix.SubInPlace | CC/include/SquareMatrix.h:211-220 | each cell becomes old cell − B's cell, even when B is the receiver; size and eigenvalues unchanged |
| SquareMatrices.SquareMatrix.Plus | CC/include/SquareMatrix.h:181-187 | a fresh copy holding the cell-wise sum with the receiver's eigenvalues, in an array of its own (the copy constructor allocates one); both operands unchanged |
| SquareMatrices.SquareMatrix.Minus | CC/include/SquareMatrix.h:202-208 | a fresh copy holding the cell-wise difference with the receiver's eigenvalues, in an array of its own; both operands unchanged |
| SquareMatrices.SquareMatrix.Times | CC/include/SquareMatrix.h:223-241 | a fresh size-n matrix without eigenvalues whose cell [r][c] is Σ_k A[r][k]·B[k][c] |
| ArrayGrids.MulInto | CC/include/SquareMatrix.h:229-239 | the triple loop writes the product of the two operands into a third array |
| ArrayGrids.RowTimesColumn | CC/include/SquareMatrix.h:233-235 | the inner accumulation is row r times column c, summed left to right |
| SquareMatrices.SquareMatrix.TimesInPlace | CC/include/SquareMatrix.h:261-266 | the cells become the product with B; the product carries no eigenvalues, so assignment keeps the receiver's |
| SquareMatrices.SquareMatrix.MulVec3 | CC/include/SquareMatrix.h:244-258 | a 3×3 matrix applied to the 3-vector; any other size returns the vector unchanged |
| SquareMatrices.SquareMatrix.Apply | CC/include/SquareMatrix.h:291-300 | result[r] is row r times the first n entries of the vector |
| SquareMatrices.SquareMatrix.Transpose | CC/include/SquareMatrix.h:303-308 | (size ≥ 1) cell [r][c] takes the old [c][r] |
| SquareMatrices.SquareMatrix.Transposed | CC/include/SquareMatrix.h:311-317 | a fresh copy holding the transpose with the receiver's eigenvalues, in an array of its own; the receiver is unchanged |
| Grids.TransposeInvolution | CC/include/SquareMatrix.h:303-308 | transposing twice restores every cell |
| Grids.TransposeIdentity | CC/include/SquareMatrix.h:303-308 | the identity is its own transpose |
| Grids.TraceTranspose | CC/include/SquareMatrix.h:303-308 | transposing keeps the diagonal, so the trace is unchanged |
| SquareMatrices.SquareMatrix.Clear | CC/include/SquareMatrix.h:320-327 | every cell is 0, and every eigenvalue when there are eigenvalues |
| SquareMatrices.SquareMatrix.ToIdentity | CC/include/SquareMatrix.h:474-480 | the cells are the identity; eigenvalues, when present, are zeroed by the clear |
| Grids.TraceIdentity | CC/include/SquareMatrix.h:474-499 | the trace of the n×n identity is n |
| Grids.MulIdentity | CC/include/SquareMatrix.h:223-241 | multiplying by the identity on either side reproduces the other factor |
| Grids.MatVecIdentity | CC/include/SquareMatrix.h:291-300 | the identity applied to a vector returns it |
| Grids.MatVecAdd | CC/include/SquareMatrix.h:291-300 | applying a sum of matrices gives the sum of the applications |
| SquareMatrices.SquareMatrix.Scale | CC/include/SquareMatrix.h:483-488 | every cell multiplied by the coefficient; eigenvalues untouched |
| Grids.ScaleByOneAndZero | CC/include/SquareMatrix.h:483-488 | scaling by 1 changes nothing; scaling by 0 clears |
| Grids.TraceScale | CC/include/SquareMatrix.h:483-499 | scaling multiplies the trace by the coefficient |
| SquareMatrices.SquareMatrix.Trace | CC/include/SquareMatrix.h:491-499 | the sum of the diagonal |
| Grids.TraceAdd | CC/include/SquareMatrix.h:190-199 | the trace of a sum is the sum of the traces |
| Grids.TraceZero | CC/include/SquareMatrix.h:320-327 | a cleared matrix has trace 0 |
| Grids.AddZero | CC/include/SquareMatrix.h:190-199 | adding the zero matrix changes nothing |
| Grids.SubSelf | CC/include/SquareMatrix.h:211-220 | a matrix minus itself is the zero matrix |
| Grids.SubUndoesAdd | CC/include/SquareMatrix.h:181-220 | subtracting B undoes adding B |
| Grids.AddCommutes | CC/include/SquareMatrix.h:181-199 | the cell-wise sum does not depend on the order of the operands |
| SquareMatrices.SquareMatrix.ComputeDet | CC/include/SquareMatrix.h:502-505 | (size ≥ 2) the determinant of the cells by cofactor expansion along column 0 |
| SquareMatrices.SquareMatrix.ComputeSubDet | CC/include/SquareMatrix.h:965-997 | the recursion returns the determinant of its view: the 2×2 formula for two rows, otherwise Σ_row sign·mat[row][0]·det(view without that row, one column right) |
| SquareMatrices.SquareMatrix.SubDetTwo | CC/include/SquareMatrix.h:967-970 | the 2×2 base case a00·a11 − a01·a10 |
| SquareMatrices.RowsWithout | CC/include/SquareMatrix.h:980-983 | the row pointers of the minor are the view's rows without `row`, in order |
| Determinants.RemoveAt | CC/include/SquareMatrix.h:980-983 | the minor's row list is one shorter and skips exactly the removed row |
| Determinants.ExpansionStep | CC/include/SquareMatrix.h:978-987 | each pass of the loop adds the next term of the expansion and flips the sign |
| Determinants.DetTwo | CC/include/SquareMatrix.h:502-505 | the determinant of [[a, b], [c, d]] is ad − bc (the 2×2 case at lines 967-970) |
| Determinants.DetThreeBySarrus | CC/include/SquareMatrix.h:965-997 | for 3×3 the expansion equals the rule of Sarrus |
| Determinants.DetThreeTranspose | CC/include/SquareMatrix.h:965-997 | for 3×3 transposing keeps the determinant |
| Determinants.DetIdentity | CC/include/SquareMatrix.h:965-997 | the identity has determinant 1 at every size ≥ 2 |
| Determinants.DetZeroColumn | CC/include/SquareMatrix.h:965-997 | a grid with an all-zero column has determinant 0 |
| Determinants.CofactorSumFirstUnit | CC/include/SquareMatrix.h:978-987 | a first column of 1 then zeros leaves only the first term of the expansion |
| SquareMatrices.SquareMatrix.DeltaDeterminant | CC/include/SquareMatrix.h:623-645 | the determinant of the matrix with column `column` replaced by v[0..n) |
| SquareMatrices.FillReplacingColumn | CC/include/SquareMatrix.h:627-642 | the copy loop writes column `column` from the vector and every other column from the matrix |
| Determinants.ReplaceColumn | CC/include/SquareMatrix.h:627-642 | cell [i][j] is v[i] in the replaced column and the matrix's cell elsewhere |
| Determinants.ReplaceOwnColumn | CC/include/SquareMatrix.h:623-645 | substituting a column's own values, or a column index ≥ n, leaves the matrix and so its determinant unchanged |
| SquareMatrices.SquareMatrix.Inv | CC/include/SquareMatrix.h:330-449 | (size ≥ 1) the size-0 matrix exactly when a pivot search fails; otherwise the identity with its rows in the pivot order, without eigenvalues |
| GaussPivot.FillScratch | CC/include/SquareMatrix.h:355-368 | the scratch grid holds the matrix on the left and the identity on the right |
| GaussPivot.FindPivot | CC/include/SquareMatrix.h:374-387 | the first row from i down whose column-i entry is non-zero, or none |
| GaussPivot.SwapRowTails | CC/include/SquareMatrix.h:391-393 | rows i and j are exchanged from column `from` on; nothing else changes |
| GaussPivot.NormalizeRow | CC/include/SquareMatrix.h:396-401 | with the divisor re-read through the reference, only the pivot becomes 1 and nothing else changes |
| GaussPivot.EliminateEntry | CC/include/SquareMatrix.h:406-411 | with the factor re-read through the reference, only entry [j][i] becomes 0 and nothing else changes |
| GaussPivot.SwapPivotRow | CC/include/SquareMatrix.h:389-393 | swapping in the pivot row swaps the row order and keeps the forward invariant |
| GaussPivot.EliminateBelow | CC/include/SquareMatrix.h:403-412 | clearing below the unit pivot completes step i of the forward invariant |
| GaussPivot.ForwardStep | CC/include/SquareMatrix.h:374-412 | step i succeeds exactly when its pivot search does, and then advances the forward invariant with the swapped row order |
| GaussPivot.ForwardPass | CC/include/SquareMatrix.h:371-414 | the forward pass succeeds exactly when the pivot order exists, and then ends with that order |
| GaussPivot.ReductionStep | CC/include/SquareMatrix.h:420-428 | step i of the reduction clears column i above the diagonal |
| GaussPivot.BackwardPass | CC/include/SquareMatrix.h:417-430 | after the reduction the left half is the identity |
| GaussPivot.CopyRightHalf | CC/include/SquareMatrix.h:433-438 | the result holds the right half: the identity in the pivot row order |
| Pivoting.FirstNonZero | CC/include/SquareMatrix.h:375-387 | the first position with a non-zero entry in column i, all earlier ones being zero; none when all are zero |
| Pivoting.PivotFrom | CC/include/SquareMatrix.h:372-413 | the row order after the remaining steps is a list of row indices, or none on failure |
| Pivoting.PivotPerm | CC/include/SquareMatrix.h:372-413 | the row order of the whole forward pass, or none when it fails |
| Pivoting.PermMatrix | CC/include/SquareMatrix.h:433-437 | row r holds a single 1, in column p[r] |
| Pivoting.PivotFromIsPermutation | CC/include/SquareMatrix.h:389-393 | row swaps keep the row order a permutation |
| Pivoting.InvResultIsPermutationMatrix | CC/include/SquareMatrix.h:372-437 | when inv succeeds, the pivot order is a permutation and the result is a permutation matrix |
| Pivoting.NonZeroDiagonalGivesIdentity | CC/include/SquareMatrix.h:372-437 | with no zero on the diagonal no row is swapped and inv returns the identity |
| Pivoting.ZeroColumnSingular | CC/include/SquareMatrix.h:377-386 | a matrix with an all-zero column makes inv fail |
| Pivoting.ZeroRowSingular | CC/include/SquareMatrix.h:377-386 | a matrix with an all-zero row makes inv fail |
| Pivoting.PermMatrixPermutesRows | CC/include/SquareMatrix.h:433-437 | multiplying by inv's result reorders rows: row r of the product is row p[r] of the factor |
| Inverse.InvOfTwoAsWritten | CC/include/SquareMatrix.h:396-401 | as written, `inv` of [[2]] finds its pivot in place and returns [[1]], and [[1]]·[[2]] is not the identity |
| Inverse.InvOfSingularAsWritten | CC/include/SquareMatrix.h:371-414 | as written, `inv` succeeds on the singular [[1, 1], [1, 1]] and returns the identity |
| Inverse.SingularHasNoLeftInverse | CC/include/SquareMatrix.h:371-387 | no 2×2 grid times [[1, 1], [1, 1]] is the identity, so success on it is wrong |
| Inverse.InvFailsOnInvertibleAsWritten | CC/include/SquareMatrix.h:403-412 | as written, `inv` fails on [[1, 1], [1, 0]] although [[0, 1], [1, -1]] is its inverse on both sides |
| Inverse.Swapped | CC/include/SquareMatrix.h:389-393 | the corrected swap exchanges rows i and j in both halves and leaves the other rows |
| Inverse.Normalize | CC/include/SquareMatrix.h:395-401 | the corrected normalisation makes the pivot 1 and changes no other row |
| Inverse.ClearBelow | CC/include/SquareMatrix.h:403-412 | the corrected elimination keeps the rows above j and, below a unit pivot, leaves column i zero |
| Inverse.PivotStep | CC/include/SquareMatrix.h:373-412 | one corrected forward step: the pivot ends 1 with zeros below it, and rows 0..i-1 are kept |
| Inverse.ForwardFrom | CC/include/SquareMatrix.h:371-414 | the corrected forward pass from step i: on success rows 0..i-1 are kept and the diagonal from i on is 1 |
| Inverse.ClearAbove | CC/include/SquareMatrix.h:420-428 | the corrected clearing above pivot i keeps rows above j and from i on, and, above a unit pivot, leaves column i zero from row j |
| Inverse.ReduceFrom | CC/include/SquareMatrix.h:416-430 | the corrected reduction from column i changes only the rows above i |
| Inverse.ForwardFromSpec | CC/include/SquareMatrix.h:371-414 | in the corrected forward pass, the right half times the matrix stays equal to the left half, and on success the left half ends unit upper triangular |
| Inverse.ReduceFromSpec | CC/include/SquareMatrix.h:417-430 | the corrected reduction keeps that relation and clears the left half above the diagonal |
| Inverse.IntendedInverse | CC/include/SquareMatrix.h:329-449 | when the corrected `inv` succeeds, its result is n×n and times the matrix is the identity |
| Inverse.IntendedInverseOfTwo | CC/include/SquareMatrix.h:396-401 | the corrected `inv` of [[2]] is [[1/2]] |
| Inverse.IntendedInverseOfInvertible | CC/include/SquareMatrix.h:403-412 | the corrected `inv` of [[1, 1], [1, 0]] succeeds and is [[0, 1], [1, -1]] |
| SquareMatrices.SquareMatrix.InitFromQuaternion | CC/include/SquareMatrix.h:528-555 | a size-0 matrix first becomes 3×3; the cells become the rotation matrix of (w, x, y, z); eigenvalues unchanged |
| SquareMatrices.WriteRotation | CC/include/SquareMatrix.h:535-554 | the nine writes from the ten component products give the rotation matrix |
| Quaternions.RotationIsOrthogonal | CC/include/SquareMatrix.h:522-555 | for a normalised quaternion the matrix times its transpose is the identity |
| Quaternions.RotationTimesTranspose | CC/include/SquareMatrix.h:535-554 | for any quaternion the matrix times its transpose is (w²+x²+y²+z²)² times the identity |
| Quaternions.UnitQuaternionGivesIdentity | CC/include/SquareMatrix.h:535-554 | the quaternion (1, 0, 0, 0) gives the identity |
| Quaternions.OppositeQuaternionSameRotation | CC/include/SquareMatrix.h:535-554 | q and −q give the same matrix |
| Quaternions.TraceOfRotation | CC/include/SquareMatrix.h:522-555 | for a normalised quaternion the trace is 4w² − 1 |
| SquareMatrices.SquareMatrix.ToGlMatrix | CC/include/SquareMatrix.h:813-832 | (size 3 or 4) the 16 values written, as GlFromGrid describes them |
| SquareMatrices.GlArray | CC/include/SquareMatrix.h:816-831 | the zeroed array, the 3×3 block column-major, for size 4 the last row into slots 12..14 and the last column into slots 3, 7, 11, then slot 15 set to 1 |
| OpenGl.GridFromGl | CC/include/SquareMatrix.h:93-97 | the imported grid has cell [r][c] = M16[c*4+r] |
| OpenGl.GlFromGrid | CC/include/SquareMatrix.h:813-832 | the exported array has 16 values, slot by slot as toGlMatrix writes them |
| OpenGl.RoundTripThree | CC/include/SquareMatrix.h:89-99 | a 3×3 matrix exported and re-imported comes back unchanged |
| OpenGl.RoundTripFourAsWritten | CC/include/SquareMatrix.h:822-829 | a 4×4 matrix exported and re-imported comes back with its last row and last column exchanged and [3][3] = 1 |
| OpenGl.TranslationLostAsWritten | CC/include/SquareMatrix.h:822-829 | a translation along x ends up in slot 3, not slot 12, and does not round-trip |
| OpenGl.IdentityRoundTrip | CC/include/SquareMatrix.h:813-832 | the identity array survives import and export at size 4 and at size 3 |
| OpenGl.GlFromGridConsistent | CC/include/SquareMatrix.h:813-832 | the export with the last column in the translation slots 12..14 |
| OpenGl.RoundTripConsistent | CC/include/SquareMatrix.h:89-99 | with that export, every 3×3 matrix and every 4×4 matrix with [3][3] = 1 round-trips |
| OpenGl.ArrayRoundTripConsistent | CC/include/SquareMatrix.h:89-99 | with that export, every array with slot 15 = 1 survives import and export |
| SquareMatrices.SquareMatrix.SwapEigenPair | CC/include/SquareMatrix.h:847-852 | eigenvalues i and j are exchanged and so are columns i and j |
| SquareMatrices.IndexOfMax | CC/include/SquareMatrix.h:842-845 | the first index of the largest of the remaining eigenvalues |
| SquareMatrices.SquareMatrix.SelectMax | CC/include/SquareMatrix.h:841-852 | one pass extends the sorted prefix by one and keeps the multiset of (eigenvalue, column) pairs |
| SquareMatrices.SquareMatrix.SortEigenValuesAndVectors | CC/include/SquareMatrix.h:835-854 | without eigenvalues or below size 2 nothing changes; otherwise the eigenvalues end non-increasing and the multiset of (eigenvalue, column) pairs is kept |
| EigenOrder.PairsSwap | CC/include/SquareMatrix.h:847-852 | swapping two eigenvalues together with their columns swaps two (eigenvalue, column) pairs |
| EigenOrder.SwapKeepsMultiset | CC/include/SquareMatrix.h:847-852 | a swap keeps the multiset of elements |
| EigenOrder.FirstMaxIndex | CC/include/SquareMatrix.h:865-868 | the first index of the largest eigenvalue |
| EigenOrder.FirstMinIndex | CC/include/SquareMatrix.h:881-884 | the first index of the smallest eigenvalue |
| EigenOrder.SortedMaxIsFirst | CC/include/SquareMatrix.h:835-871 | after sorting, the largest eigenvalue is the first |
| EigenOrder.SortedMinIsLast | CC/include/SquareMatrix.h:835-887 | after sorting, the smallest eigenvalue found is the last one's value |
| SquareMatrices.SquareMatrix.GetEigenValueAndVector | CC/include/SquareMatrix.h:894-904 | eigenvalue `index` and column `index` |
| SquareMatrices.SquareMatrix.GetMaxEigenValueAndVector | CC/include/SquareMatrix.h:861-871 | the first largest eigenvalue, bounding all the others, and its column |
| SquareMatrices.SquareMatrix.GetMinEigenValueAndVector | CC/include/SquareMatrix.h:877-887 | the first smallest eigenvalue, bounded by all the others, and its column |
| ArrayGrids.CopyValues | CC/include/SquareMatrix.h:174 | the `memcpy` of the eigenvalues: the destination ends holding the source's n values |
| ArrayGrids.CopyCells | CC/include/SquareMatrix.h:166-168 | the assignment loop copies every cell, the source possibly being the destination |

## Left out

- `computeJacobianEigenValuesAndVectors` and the `ROTATE` macro are not modelled (CC/include/SquareMatrix.h:650-790, line 32). They rely on floating point: `sqrt`, `fabs`, equality tests after `static_cast<float>`, and convergence when underflow reaches exactly zero.
- `toQuaternion` is not modelled (lines 563-620). It needs `sqrt` and a `1e-6` threshold.
- `print` is not modelled (lines 454-471). It is console or file output.
- Allocation failures are not modelled: `new` returning null in `init`, `inv` and `computeSubDet`. Dafny allocation does not fail, so only the success paths are modelled.
- Scalars are exact reals. The float and double instantiations, and the `static_cast` between scalar types, are not modelled (lines 1012-1018 and the casts in `toGlMatrix`, `initFromQuaternion` and `computeSubDet`).
- The float overloads of the OpenGL constructor, `initFromQuaternion` and `toGlMatrix` are not modelled separately. With exact reals they are the double versions.
- `CCVector3` is a 3-element sequence.
- `size`, `isValid`, `row`, `setValue`, `getValue` and `getEigenValues` are direct reads and writes of the fields, which the model exposes as `n`, `vals` and `eig`.
- `operator=` keeps stale eigenvalues when the sizes match and the right-hand side has none. `Assign` models this as written.
- SquareMatrices.SquareMatrix.EnableEigenValues: the values in a freshly attached eigenvalue array are left unspecified. C++ `new Scalar[n]` leaves them uninitialised.
- SquareMatrices.SquareMatrix.SortEigenValuesAndVectors: the `absVal` flag has no effect, as in the code.
- SquareMatrices.SquareMatrix.GetEigenValueAndVector: the optional eigenvector buffer (null means "value only") is not modelled. The vector is always returned.
- A null `m_values` is represented as a size-0 array.
- Inverse.IntendedInverse: proves that the corrected result is a left inverse (result · matrix = identity). It does not prove matrix · result = identity, and it does not prove that the corrected version fails only on singular matrices.
- The callers in `libs/qCC_io/DxfFilter.cpp` and `qCC/ccColorGradientDlg.cpp` are not part of this model. They are file-format glue and UI code.

## Findings

| source | as written | input that shows it | evidently intended | confidence | as-written member | corrected member |
|---|---|---|---|---|---|---|
| CC/include/SquareMatrix.h:822-829 | for size 4, `toGlMatrix` writes row 3 into slots 12..14 and column 3 into slots 3, 7, 11, the transpose of what the "from OpenGL" constructor reads | the translation by (5, 0, 0): its 5 lands in slot 3, slot 12 stays 0, and re-importing does not give the matrix back | column 3 (the translation) in slots 12..14 and row 3 in slots 3, 7, 11, so that export and import are inverse | not executed | OpenGl.RoundTripFourAsWritten, OpenGl.TranslationLostAsWritten | OpenGl.GlFromGridConsistent, OpenGl.RoundTripConsistent, OpenGl.ArrayRoundTripConsistent |
| CC/include/SquareMatrix.h:396-428 | `inv` reads its divisor (line 398) and its elimination factors (lines 408 and 424) through `const Scalar&` references into the cells the same loops overwrite first, so after one iteration the divisor reads 1 and the factor 0; only the pivot column changes and the result is the identity with its rows permuted | the 1×1 matrix [[2]]: `inv` returns [[1]], and [[1]]·[[2]] = [[2]]. The singular [[1, 1], [1, 1]]: `inv` succeeds and returns the identity. The invertible [[1, 1], [1, 0]]: after step 0 the aliased factor leaves cell [1][1] at 0 instead of -1, so `inv` fails | divisor and factors read by value before the loops, so that the result times the matrix is the identity ([[1/2]] for [[2]]) | not executed | SquareMatrices.SquareMatrix.Inv, Inverse.InvOfTwoAsWritten, Inverse.InvOfSingularAsWritten, Inverse.SingularHasNoLeftInverse, Inverse.InvFailsOnInvertibleAsWritten | Inverse.IntendedInverse, Inverse.IntendedInverseOfTwo, Inverse.IntendedInverseOfInvertible |
| CC/include/SquareMatrix.h:953-962 | the comment on `enableEigenValues` says the array is set to zero even when it already exists, but the code only allocates a missing array and neither zeroes nor reallocates an existing one | a matrix whose attached eigenvalues are (3, 4): after `enableEigenValues` they are still (3, 4) | either the comment is stale or the array should be zeroed; `operator=` overwrites the array straight after (line 174), so no caller in this class sees the difference | not executed; low, since the comment may be the part in error | SquareMatrices.SquareMatrix.EnableEigenValues | SquareMatrices.SquareMatrix.EnableZeroedEigenValues |
