# dgstrs: the SuperLU triangular solve, modelled in Dafny

`dgstrs` (FEI_mv/SuperLU/dgstrs.c) solves `A*X = B` or `A'*X = B`. It uses
the factorization `Pr*A*Pc = L*U` computed by `dgstrf`. `B` is a dense
column-major matrix with leading dimension `ldb` and `nrhs` columns, and the
solve overwrites it with `X`.

- `L` is supernodal (the SC scheme). Each supernode is a run of columns that
  share one list of row subscripts and one dense block. The diagonal block of
  a supernode also holds the diagonal and upper triangle of `U`.
- `U` stores its other strictly upper entries column by column (the NC
  scheme).

The model follows the routine phase by phase:

- **Argument checks** (`TriangularSolve.CheckArgs`). The first failing check
  gives the code: -1 for `trans`, -2 for `L`, -3 for `U`, -6 for `B`. On any
  error `B` and the statistics are left untouched.
- **Row permutations** (module `Permutations`). A scatter through the scratch
  vector `soln` forms `Pr*B` (or `inv(Pc)*B`). A gather forms `Pc*X` (or
  `inv(Pr)*X`). Each is proved against closed-form `Scatter` and `Gather`, and
  each undoes the other.
- **Forward substitution with L** (module `Forward`). Supernodes run in
  ascending order.
  - A singleton supernode does a scalar scatter update.
  - A wider supernode does three things: a unit lower solve of its diagonal
    block (`sludlsolve`), a panel product into `work` (`sludmatvec`), and a
    scatter-subtract of `work` through the row subscripts. That scatter also
    zeroes `work` again.
- **Back substitution with U** (module `Backward`). Supernodes run in
  descending order.
  - The diagonal step divides (singleton) or solves the upper triangular
    diagonal block (`sludusolve`).
  - Then the sweep subtracts the compressed columns of `U`.
- **Transpose path.** The permutation by `perm_c`, two calls of `sp_dtrsv` per
  column, then the gather by `perm_r`.
- **Operation count.** The count accumulated in `solve_ops` is published to
  the statistics record. The transpose path resets the record's count to 0
  before its `sp_dtrsv` calls, and each call may add to it. What a call adds
  is a caller-supplied function of the column it solves.

The three dense kernels `sludlsolve`, `sludusolve` and `sludmatvec` are only
declared in dgstrs.c. They are modelled as loops (module `DenseKernels`) and
proved against row-oriented reference solutions:

- `LowerUnitSolution` and `UpperSolution` are proved to be the unique
  solutions of their triangular systems;
- `MatVec` is the matrix-vector product.

Modules `Products` and `UpperProducts` define `L*y` and `U*y` directly from
the stored entries. On top of them the model proves:

- the forward solve is the inverse of `L*y`;
- the back substitution is the inverse of `U*y`;
- in `TriangularSolve`, the no-transpose solve of a column `b` gives the
  unique `x` with `A*x = b`, where `A*x` is `ATimes` (`inv(Pr)*L*U*inv(Pc)*x`).

Numbers are Dafny `real`, so the arithmetic is exact. `B` is an
`array<real>`, and the solve overwrites it in place. `work` and `soln` are
arrays too. `L`, `U`, `perm_r` and `perm_c` are read-only values.
`SuperLUStat` is a class whose `solveOps` field the solve assigns.

## Model

| member | source | states |
|---|---|---|
| TriangularSolve.CheckArgs | FEI_mv/SuperLU/dgstrs.c:144-159 | the error codes, in order. The code is 0 exactly when every check passes. It is -1 exactly when `trans` is not N, T or C in either case. It is -2 exactly when `trans` passes and `L` fails its shape or tag check. It is -3 exactly when those pass and `U` fails. It is -6 exactly when those pass and `ldb < max(0,n)` or a `B` tag is wrong |
| TriangularSolve.TransAccepts | FEI_mv/SuperLU/dgstrs.c:148-149 | the option test accepts `trans` exactly when it is one of `N`, `n`, `T`, `t`, `C`, `c`, and it takes the no-transpose branch exactly for `N` and `n` |
| TriangularSolve.LsameLetter | FEI_mv/SuperLU/dgstrs.c:148-149 | comparing an option character with an upper-case letter succeeds exactly for that letter and its lower-case form |
| TriangularSolve.Dgstrs | FEI_mv/SuperLU/dgstrs.c:67-358 | `info` is the code of the argument checks. On an error, `B` and the statistics are unchanged. With `trans` N, every column of `B` is replaced by its no-transpose solution and the statistics receive the forward plus backward operation count. Otherwise every column is replaced by its transposed solution, and the count is what the `sp_dtrsv` calls add after the reset to 0: `utOps` and `ltOps` summed over the scattered columns |
| TriangularSolve.SolveNoTranspose | FEI_mv/SuperLU/dgstrs.c:179-325 | every live column `b` of `B` becomes `Pc * inv(U) * inv(L) * Pr * b`, with padding rows and the tail untouched. The returned count is the forward count plus the backward count |
| TriangularSolve.SolvePasses | FEI_mv/SuperLU/dgstrs.c:181-323 | the four passes (scatter by `perm_r`, forward solve, back substitution, gather by `perm_c`), each applied to all columns, compose to the per-column solve |
| TriangularSolve.SolveTranspose | FEI_mv/SuperLU/dgstrs.c:327-353 | every live column becomes the gather by `perm_r` of the two transposed solves applied to the scatter by `perm_c` of the column. The count grows by what the solves add on the scattered columns |
| TriangularSolve.TransSolvePasses | FEI_mv/SuperLU/dgstrs.c:329-352 | the three passes of the transpose path compose to the per-column transposed solve |
| TriangularSolve.TransposeSolves | FEI_mv/SuperLU/dgstrs.c:337-345 | every column goes through the `U'` solve and then the `L'` solve, and nothing else changes. The count grows by `utOps` of each column plus `ltOps` of its `U'` solution |
| TriangularSolve.ApplyColumn | FEI_mv/SuperLU/dgstrs.c:340-343 | one `sp_dtrsv` call replaces the column at `&Bmat[k*ldb]` by its image, leaves the rest of `B` alone, and adds its count for that column to the statistics |
| TriangularSolve.TransOpsAppend | FEI_mv/SuperLU/dgstrs.c:337-345 | the count the transposed solves add is additive over the right-hand sides: the count for two groups of columns is the sum of their counts |
| TriangularSolve.SolveColumnSolves | FEI_mv/SuperLU/dgstrs.c:75-96 | for every right-hand side `b`, the solve `x` satisfies `A*x = b`, where `A = inv(Pr)*L*U*inv(Pc)` is the matrix of the factorization |
| TriangularSolve.SolveColumnUnique | FEI_mv/SuperLU/dgstrs.c:75-96 | solving `A*x` gives back `x`, so the solution is unique |
| TriangularSolve.SolveEachSolves | FEI_mv/SuperLU/dgstrs.c:109-113 | on exit, every column of `B` solves `A*x = b` for the column of `B` it replaced |
| Permutations.Inverse | FEI_mv/SuperLU/dgstrs.c:100-107 | the inverse of a permutation vector: `p[q[r]] == r` for every `r` |
| Permutations.InverseIsPermutation | FEI_mv/SuperLU/dgstrs.c:100-107 | the inverse of a permutation of `0..n-1` is again one |
| Permutations.ScatterPlaces | FEI_mv/SuperLU/dgstrs.c:183 | the scatter puts `x[k]` in slot `perm[k]` |
| Permutations.ScatterIntoEffect | FEI_mv/SuperLU/dgstrs.c:183 | after `k` passes of the scatter loop, slots `perm[0..k-1]` hold their entries and every other slot of `soln` is unchanged |
| Permutations.ScatterIntoIsScatter | FEI_mv/SuperLU/dgstrs.c:169-183 | after the whole loop, `soln` holds the scatter whatever it held before, so the uninitialised `malloc` does no harm |
| Permutations.GatherScatter | FEI_mv/SuperLU/dgstrs.c:347-351 | gathering by a permutation undoes scattering by it: `X := Pr'*X (= inv(Pr)*X)` |
| Permutations.ScatterGather | FEI_mv/SuperLU/dgstrs.c:318-322 | scattering by a permutation undoes gathering by it |
| Permutations.CopyBack | FEI_mv/SuperLU/dgstrs.c:184 | the copy loop writes `soln` over the column and nothing else |
| Permutations.ScatterColumn | FEI_mv/SuperLU/dgstrs.c:182-184 | the column is replaced by its scatter, `soln` holds the same values, and the rest of `B` is unchanged |
| Permutations.GatherColumn | FEI_mv/SuperLU/dgstrs.c:320-322 | the column is replaced by its gather (`soln[k] = rhs[perm[k]]`), and the rest of `B` is unchanged |
| Permutations.ScatterRows | FEI_mv/SuperLU/dgstrs.c:181-185 | every live column of `B` is scattered, and padding rows and the tail are unchanged |
| Permutations.GatherRows | FEI_mv/SuperLU/dgstrs.c:319-323 | every live column of `B` is gathered, and padding rows and the tail are unchanged |
| Supernodes.Supernode | FEI_mv/SuperLU/dgstrs.c:189-193 | on a partition of `0..n-1`, supernode `k` starts at a valid column, has at least one column and ends inside the matrix |
| Supernodes.SingletonFits | FEI_mv/SuperLU/dgstrs.c:198-206 | the one column of a singleton lies in `Lval` |
| Supernodes.BlocksFit | FEI_mv/SuperLU/dgstrs.c:243-245 | the diagonal block and the panel (`&Lval[luptr+nsupc]`) of a supernode lie in `Lval` |
| Supernodes.FirstDiagonal | FEI_mv/SuperLU/dgstrs.c:279 | `Lval[L_NZ_START(fsupc)]` is entry (0,0) of the diagonal block, the divisor of the singleton step |
| Supernodes.UEntryAbove | FEI_mv/SuperLU/dgstrs.c:304-306 | an entry of `U` in a column of supernode `k` has its row above the supernode and lies in `Uval` |
| Supernodes.SupernodeColumnsOk | FEI_mv/SuperLU/dgstrs.c:302-306 | every column of `U` in a supernode is well formed and strictly upper |
| Forward.ScalarScatterEffect | FEI_mv/SuperLU/dgstrs.c:202-206 | the singleton update leaves `rhs[fsupc]` unchanged and undivided. Each subscript row loses `rhs[fsupc] * Lval[luptr]`, and every other row is unchanged |
| Forward.ScalarScatterStep | FEI_mv/SuperLU/dgstrs.c:202-205 | one pass of the singleton loop updates one row below the supernode |
| Forward.ScalarScatterColumn | FEI_mv/SuperLU/dgstrs.c:199-207 | the singleton loop on one column computes the singleton update, and the rest of `B` is unchanged |
| Forward.PanelScatterEffect | FEI_mv/SuperLU/dgstrs.c:247-253 | each panel row `L_SUB(istart+nsupc+i)` loses `work[i]` exactly once, and every other row is unchanged |
| Forward.ScatterWork | FEI_mv/SuperLU/dgstrs.c:247-253 | the scatter loop subtracts `work` from the panel rows and leaves `work` all zero |
| Forward.SolveSegment | FEI_mv/SuperLU/dgstrs.c:243 | the supernode's rows are replaced by the solution of the unit lower diagonal block, and nothing else changes |
| Forward.ProductAndScatter | FEI_mv/SuperLU/dgstrs.c:244-253 | the panel product is formed in `work` and scatter-subtracted, and `work` ends all zero |
| Forward.PanelUpdateColumn | FEI_mv/SuperLU/dgstrs.c:242-253 | the wide-supernode step on one column, with `work` zero before and after |
| Forward.BlockForwardEffect | FEI_mv/SuperLU/dgstrs.c:243-253 | after the wide step, the supernode's rows hold the unit lower solution and each panel row loses its panel row times that solution. Every other row is unchanged |
| Forward.ForwardSupernode | FEI_mv/SuperLU/dgstrs.c:198-256 | supernode `k` is applied to every right-hand side, and `work` stays all zero |
| Forward.ForwardEachStep | FEI_mv/SuperLU/dgstrs.c:188 | supernode `k` applied after supernodes `0..k-1` gives supernodes `0..k` |
| Forward.ScatterEntry | FEI_mv/SuperLU/dgstrs.c:249-252 | one pass of the scatter loop subtracts `work[i]` from row `rowind[iptr]` of the column, zeroes `work[i]`, and changes nothing else |
| Forward.ForwardColumn | FEI_mv/SuperLU/dgstrs.c:198-254 | supernode `k` on one column: either branch (singleton or wide) leaves the column equal to the supernode's forward step applied to its old value, the rest of `B` unchanged and `work` all zero |
| Forward.ForwardPass | FEI_mv/SuperLU/dgstrs.c:193-254 | one pass of the supernode loop: every column goes from the forward solve over supernodes `0..k-1` to that over `0..k`, and the count grows by `nsupc*(nsupc-1)*nrhs + 2*nrow*nsupc*nrhs` |
| Forward.ForwardSolveAll | FEI_mv/SuperLU/dgstrs.c:187-257 | every column gets the forward solve, and the count grows by `nsupc*(nsupc-1)*nrhs + 2*nrow*nsupc*nrhs` per supernode |
| Backward.DiagSolveEffect | FEI_mv/SuperLU/dgstrs.c:276-298 | both branches of the diagonal step (the divide of a singleton, the block solve of a wider supernode) leave the supernode's rows holding the solution of the upper triangular diagonal block, and no other row changes |
| Backward.DiagColumn | FEI_mv/SuperLU/dgstrs.c:276-298 | the diagonal step on one column, with the rest of `B` unchanged |
| Backward.DiagColumnOf | FEI_mv/SuperLU/dgstrs.c:276-298 | the diagonal step on column `j` makes it the diagonal solution of its old value, so one more column of `B` is done, and the other columns are unchanged |
| Backward.DiagSupernode | FEI_mv/SuperLU/dgstrs.c:276-298 | the diagonal step on every right-hand side |
| Backward.UEntryBelow | FEI_mv/SuperLU/dgstrs.c:304-306 | a column of `U` whose subscripts all lie above row `lim` has nothing in row `lim` or below |
| Backward.SweepColumnEffect | FEI_mv/SuperLU/dgstrs.c:304-307 | the sweep of column `jcol` takes `rhs[jcol] * U(r,jcol)` off every row `r`, adding repeated subscripts, and leaves `rhs[jcol]` alone |
| Backward.SweepColumnStep | FEI_mv/SuperLU/dgstrs.c:304-306 | one pass of the inner sweep loop updates one row above the column |
| Backward.SweepOneColumn | FEI_mv/SuperLU/dgstrs.c:304-307 | the inner sweep loop computes the sweep of one column of `U` |
| Backward.SweepSupernodeColumn | FEI_mv/SuperLU/dgstrs.c:302-308 | the sweeps of all the supernode's columns in ascending order, adding `2*(U_NZ_START(jcol+1)-U_NZ_START(jcol))` per column to the count |
| Backward.SweepColumnOf | FEI_mv/SuperLU/dgstrs.c:300-308 | the sweep of the supernode's `U` columns on column `j` of `B` finishes one more column, and the count grows by the sweep count of the supernode |
| Backward.SweepSupernode | FEI_mv/SuperLU/dgstrs.c:300-309 | the sweep on every right-hand side, with `nrhs` times the sweep count |
| Backward.BackwardEachStep | FEI_mv/SuperLU/dgstrs.c:267 | supernode `k` applied after supernodes `nsuper..k+1` gives supernodes `nsuper..k` |
| Backward.BackwardSupernode | FEI_mv/SuperLU/dgstrs.c:268-309 | supernode `k` on every right-hand side, adding `nsupc*(nsupc+1)*nrhs` plus the sweep counts |
| Backward.BackwardSolveAll | FEI_mv/SuperLU/dgstrs.c:267-311 | every column gets the back substitution over supernodes `nsuper` down to 0, with its operation count |
| DenseKernels.EliminateBelow | FEI_mv/SuperLU/dgstrs.c:243 | one column step of `sludlsolve`: every row below pivot `j` loses `rhs[j]` times its entry in column `j` |
| DenseKernels.LowerUnitSolve | FEI_mv/SuperLU/dgstrs.c:243 | `sludlsolve` replaces `nsupc` entries by the solution of the unit lower triangular system and nothing else |
| DenseKernels.LowerUnitSolves | FEI_mv/SuperLU/dgstrs.c:243 | that solution satisfies every row of the unit lower system |
| DenseKernels.LowerUnitUnique | FEI_mv/SuperLU/dgstrs.c:243 | any vector that satisfies every row of the unit lower system is that solution |
| DenseKernels.EliminateAbove | FEI_mv/SuperLU/dgstrs.c:296 | one column step of `sludusolve`: every row above pivot `j` loses `rhs[j]` times its entry in column `j` |
| DenseKernels.UpperSolve | FEI_mv/SuperLU/dgstrs.c:296 | `sludusolve` replaces `nsupc` entries by the solution of the upper triangular system and nothing else |
| DenseKernels.UpperRow | FEI_mv/SuperLU/dgstrs.c:296 | entry `k` of the upper solution is `b[k]`, less the settled part of row `k`, divided by the diagonal |
| DenseKernels.UpperSolves | FEI_mv/SuperLU/dgstrs.c:296 | the upper solution satisfies every row of the system |
| DenseKernels.UpperUnique | FEI_mv/SuperLU/dgstrs.c:296 | any vector that satisfies every row of the upper system is that solution |
| DenseKernels.AddColumn | FEI_mv/SuperLU/dgstrs.c:244-245 | one column of the panel times its entry of `vec` is added to `work` |
| DenseKernels.MatVecAccumulate | FEI_mv/SuperLU/dgstrs.c:244-245 | `sludmatvec` adds the panel times the solved rows to `work[0..nrow)` and leaves the rest of `work` unchanged |
| ColumnMajor.ColumnBounds | FEI_mv/SuperLU/dgstrs.c:182 | column `j` of `B` at `&Bmat[j*ldb]` lies inside the buffer |
| ColumnMajor.UpdatedStep | FEI_mv/SuperLU/dgstrs.c:181-185 | rewriting only the live rows of the next column keeps every earlier column, every padding row and the tail |
| Products.ForwardStepInverse | FEI_mv/SuperLU/dgstrs.c:198-254 | the input of the forward step of supernode `k` is its output plus the supernode's strictly lower columns of `L` times its solved rows |
| Products.ForwardStepUndo | FEI_mv/SuperLU/dgstrs.c:198-254 | run on that sum, the forward step gives its output back |
| Products.LowerFromAbove | FEI_mv/SuperLU/dgstrs.c:188-257 | supernodes `k` and above of `L` touch no row above supernode `k` |
| Products.ForwardStateStep | FEI_mv/SuperLU/dgstrs.c:188-257 | consecutive forward states differ by the step of one supernode |
| Products.ForwardTail | FEI_mv/SuperLU/dgstrs.c:188-257 | the vector after supernodes `0..k-1` is the final solution plus what supernodes `k..nsuper` still have to take off |
| Products.ForwardHead | FEI_mv/SuperLU/dgstrs.c:188-257 | run on `L*y`, the vector after supernodes `0..k-1` is `y` plus what supernodes `k..nsuper` add |
| Products.ForwardSolveSolves | FEI_mv/SuperLU/dgstrs.c:187-257 | the forward solve of `x` gives a `y` with `L*y = x` |
| Products.ForwardSolveUnique | FEI_mv/SuperLU/dgstrs.c:187-257 | the forward solve of `L*y` gives `y` |
| UpperProducts.SupernodeStepOk | FEI_mv/SuperLU/dgstrs.c:268-309 | for well-formed factors, every supernode has its block in `Lval`, a nonzero diagonal and well-formed `U` columns whose entries lie above it |
| UpperProducts.UpperPartBeyond | FEI_mv/SuperLU/dgstrs.c:300-309 | the columns of a supernode of `U` touch no row below the supernode |
| UpperProducts.SweepColumnsEffect | FEI_mv/SuperLU/dgstrs.c:302-308 | the sweep of a supernode takes its columns of `U` times its rows off every row |
| UpperProducts.StepSegment | FEI_mv/SuperLU/dgstrs.c:276-309 | after the step of a supernode, its rows hold the solution of its diagonal block |
| UpperProducts.BackwardStepInverse | FEI_mv/SuperLU/dgstrs.c:276-309 | the input of the back-substitution step of a supernode is its output with the supernode's rows cleared, plus the supernode's columns of `U` (its diagonal block included) times its rows |
| UpperProducts.BackwardStepUndo | FEI_mv/SuperLU/dgstrs.c:276-309 | run on that sum, the step gives its output back |
| UpperProducts.BackwardStateStep | FEI_mv/SuperLU/dgstrs.c:267-311 | consecutive back-substitution states differ by the step of one supernode |
| UpperProducts.BackwardTrail | FEI_mv/SuperLU/dgstrs.c:267-311 | the vector after supernodes `nsuper..k` is the final solution in rows of supernode `k` and above, plus what the lower supernodes still have to take off |
| UpperProducts.BackwardRise | FEI_mv/SuperLU/dgstrs.c:267-311 | run on `U*y`, the vector after supernodes `nsuper..k` is the same state built from `y` |
| UpperProducts.BackwardSolveSolves | FEI_mv/SuperLU/dgstrs.c:264-311 | the back substitution of `x` gives a `y` with `U*y = x` |
| UpperProducts.BackwardSolveUnique | FEI_mv/SuperLU/dgstrs.c:264-311 | the back substitution of `U*y` gives `y` |

## Left out

- The vendor-BLAS branches (dgstrs.c:210-239 and 283-293) are not modelled: `dtrsm`/`dgemm`, and `STRSM`/`SGEMM` on Cray. They are foreign Fortran kernels. The branch modelled is the one built with `HYPRE_USING_HYPRE_BLAS` (dgstrs.c:55-57), which goes one column at a time through `sludlsolve`, `sludmatvec` and `sludusolve`. The vendor branch batches the same arithmetic over all columns.
- `sludlsolve`, `sludusolve` and `sludmatvec` are only declared in dgstrs.c (lines 62-64). Their bodies are not part of this model. They are modelled by the documented effect of each call: unit lower solve, upper solve, and multiply-accumulate into `work`.
- `sp_dtrsv` is not part of this model. The two transposed solves are caller-supplied length-preserving functions on a column. What each call adds to the solve count is a caller-supplied function of its column (`utOps`, `ltOps`). The transpose path is therefore proved to apply them in the source's order, but not to solve `A'*X = B`. The `info` argument that `sp_dtrsv` may write is not modelled.
- TriangularSolve.Dgstrs: the transpose path's contract says which functions are applied, not that the result solves `A'*X = B`, because `sp_dtrsv` is a parameter.
- Floating point: values are exact reals, so rounding, overflow, `inf` and `nan` are not modelled. A zero diagonal is excluded by the precondition (`NonSingular`) instead of producing `inf`.
- The operation count `solve_ops` (`flops_t`, a floating type) is an unbounded integer.
- Allocation failure (`ABORT` at dgstrs.c:168 and 170) ends the process; the model assumes `doubleCalloc`/`doubleMalloc` succeed. `work` starts zeroed as `calloc` gives it. `soln` starts with arbitrary contents, which the permutation lemmas show do not matter.
- `superlu_xerbla` (dgstrs.c:162) only reports the error. It is not modelled; the error code is returned.
- `superlu_lsame` is not part of this model. Option characters are compared ignoring ASCII case (`TriangularSolve.Upper`, `TriangularSolve.Lsame`). Other locale-dependent case rules are not modelled.
- The `#ifdef DEBUG` printing (dgstrs.c:259-262, 313-316) and `dprint_soln` (dgstrs.c:363-370) are output only.
- `SUPERLU_FREE` (dgstrs.c:356-357) has no effect on the values modelled.
- What `dgstrs` takes for granted without checking is a precondition of `TriangularSolve.Dgstrs`, required only when the argument checks pass:
  - the factors are well formed and nonsingular;
  - `perm_r` and `perm_c` are permutations of `0..n-1`;
  - `B` has room for `nrhs` columns of stride `ldb`.
  `U->nrow` is checked by the source but not tied to `L->nrow`; the model reads `U`'s storage at the order of `L`.
- The statistics record is reduced to the one field the solve writes, `ops[SOLVE]`.
