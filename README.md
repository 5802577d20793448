# PETSc kernels in Dafny

A Dafny model of five self-contained pieces of PETSc, with their contracts proved:

- **General index sets** (`src/vec/is/impls/general/general.c`).
  - `ISCreateGeneral` copies a list of indices. It caches whether the list is sorted, and its least and greatest entries.
  - `ISSort_General` sorts the list in place and latches the flag.
  - `ISInvertPermutation_General` builds the inverse of a permutation as a new set marked as a permutation.
  - The size, indices and sortedness queries.
- **Array kernels of the ML preconditioner glue** (`src/ksp/pc/impls/ml/ml.c`).
  - `MatConvert_MPIAIJ_ML` merges the diagonal and off-diagonal CSR blocks of the local rows into one CSR matrix. On reuse it refills the values only.
  - `PetscML_getrow` copies requested rows into ML's bounded buffers.
  - `PCSetCoordinates_ML` transposes node-interleaved coordinates into ML's dimension-by-dimension layout.
  - The AUTO near-null-space rule of `PCSetUp_ML`.
- **The star-forest record** (`include/petsc/private/sfimpl.h`).
  - The graph: each leaf's location (`mine`), the root it references (`remote`) and the leaf range (`minleaf`, `maxleaf`).
  - The rank communication plan, stated as a partition of `rmine`/`rremote` by `roffset` that lists the graph's edges grouped by rank.
  - The packing analysis: `leafcontig`, `leafstart` and `leafdups` for the self and remote parts.
  - The cached root degrees, the `graphset` gate, and the `PetscSFFree` macro.
- **`ISColoringValueCast`** (`include/petscis.h`): a range-checked narrowing with an optional out-pointer.
- **`DAGetGhostCorners`** (`src/dm/da/src/daghost.c`): divides the degrees of freedom per node out of the x extent only, using C's truncating division.

Each C routine with loops is a Dafny `method` with loop invariants. The method is proved against a specification function:

- `Interleave` for the merged CSR arrays;
- `Gathered`, `Used` and `Delivered` for the row copy;
- `Transposed` for the coordinates;
- the sortedness, min/max and permutation predicates for index sets;
- `IsRun` and `HasDup` for the packing analysis.

Lemmas then state what the source promises about those functions.

How the model is organised:

- Objects whose fields PETSc updates in place are classes: `IndexSet`, `Mat`, `CoordinateData` and `PetscSF`.
- Decisions made from values alone are functions: the null-space rule, the colouring cast, the ghost corners and the free macro.
- Matrix entries are only ever copied, so their type is a parameter. Coordinates are `real` values that are copied and never computed with.
- Fields that are parts of one C structure are grouped into one datatype:
  - `_IS` and `IS_General` become one class, `IndexSet`.
  - The star forest's plan fields (`ranks`, `ndranks`, `roffset`, `rmine`, `rremote`) and analysis fields (`leafcontig`, `leafstart`, `leafdups`) become one value, `RankPlan`. `nranks` is the length of `ranks`.

The header names a "distinguished group" of `ndranks` ranks (sfimpl.h:75) and a self (0) and remote (1) part of `rmine` (sfimpl.h:84-88) without saying how they relate. The model reads the self part as the slices of the first `ndranks` ranks and the remote part as the rest (`PartBounds`).

Where the code and its documentation differ, the model follows the code:

- In `PetscML_getrow`, the row guard at `ml.c:81` uses `||`. As written it holds for every row, so no row is ever skipped (`RowGuard`).
- `PetscSFFree` collapses a failing `Free` into the value 1, because of C's `&&`/`||`. It does not pass on `Free`'s own code (`FreeFailureCollapses`).

## Model

| member | source | states |
|---|---|---|
| ISGeneral.NonDecreasingIffSorted | src/vec/is/impls/general/general.c:135-137 | the adjacent-pair test of ISCreateGeneral holds exactly when the list is sorted pairwise |
| ISGeneral.ScanSorted | src/vec/is/impls/general/general.c:135-137 | the scan, stopping at the first descent, answers true exactly when no adjacent pair descends |
| ISGeneral.ScanMinMax | src/vec/is/impls/general/general.c:138-142 | the scan yields the least and the greatest entry, both being entries, or 0 and 0 for an empty list |
| ISGeneral.PermutedMinMax | src/vec/is/impls/general/general.c:82-85 | reordering the list keeps the cached min and max correct, so sorting need not recompute them |
| ISGeneral.SortedPermutationUnique | src/vec/is/impls/general/general.c:83 | two sorted lists holding the same multiset are equal, so the sorted result is determined by the contents |
| ISGeneral.PermutationIsOnto | src/vec/is/impls/general/general.c:47-49 | a list of n distinct values in 0..n-1 hits every value, so the inverse loop fills every slot |
| ISGeneral.InverseIsTwoSided | src/vec/is/impls/general/general.c:47-49 | if ii[idx[i]] == i for all i then ii is a permutation and composing either way gives the identity |
| ISGeneral.InverseTable | src/vec/is/impls/general/general.c:46-49 | the loop ii[idx[i]] = i yields a fresh array that is the two-sided inverse of idx and a permutation |
| ISGeneral.SortInt | src/vec/is/impls/general/general.c:83 | the first n entries end sorted and a permutation of what they were; entries from n on are untouched |
| ISGeneral.IndexSet.constructor | src/vec/is/impls/general/general.c:131-151 | a fresh buffer holding a copy of the n indices, the sorted flag exact, min/max exact, not marked a permutation |
| ISGeneral.IndexSet.GetSize | src/vec/is/impls/general/general.c:35-39 | the size is the number of indices held |
| ISGeneral.IndexSet.GetIndices | src/vec/is/impls/general/general.c:29-33 | returns the set's own buffer, whose first n entries are the indices |
| ISGeneral.IndexSet.IsSorted | src/vec/is/impls/general/general.c:88-93 | the cached flag is true exactly when the indices are sorted |
| ISGeneral.IndexSet.Sort | src/vec/is/impls/general/general.c:77-86 | afterwards the indices are sorted, a permutation of the old ones, the flag is set, and an already sorted set is left exactly as it was (so a second sort changes nothing) |
| ISGeneral.IndexSet.MarkPermutation | src/vec/is/impls/general/general.c:51 | sets the permutation mark and changes nothing else |
| ISGeneral.IndexSet.InvertPermutation | src/vec/is/impls/general/general.c:41-54 | a fresh valid set of the same size, marked a permutation, whose indices are the two-sided inverse of the input's |
| ISGeneral.CreateGeneral | src/vec/is/impls/general/general.c:118-153 | n < 0 is refused with error 1 and no set; otherwise a fresh set copying idx[..n] with exact sorted flag and min/max, not a permutation |
| SeqAIJ.SumOfRowPointers | src/ksp/pc/impls/ml/ml.c:184-185 | row pointers built by adding A's and B's pointers row by row are again monotone row pointers from 0 |
| SeqAIJ.ShiftSnoc | src/ksp/pc/impls/ml/ml.c:200 | moving columns by an commutes with taking a prefix |
| SeqAIJ.ShiftSlice | src/ksp/pc/impls/ml/ml.c:200 | moving the columns of a slice is slicing the moved columns |
| SeqAIJ.CopyRowEntries | src/ksp/pc/impls/ml/ml.c:193-203 | the entries from..to-1 are appended (columns moved by shift, values unchanged) after position k, and nothing beyond changes |
| SeqAIJ.CopyValues | src/ksp/pc/impls/ml/ml.c:226-229 | the values from..to-1 are appended after position k and nothing beyond changes |
| SeqAIJ.Mat.RowBounds | src/ksp/pc/impls/ml/ml.c:82-83 | the entries in use of a row lie inside its slot and inside both entry arrays |
| SeqAIJ.Mat.constructor | src/ksp/pc/impls/ml/ml.c:209 | wrapping consistent CSR arrays with full rows gives a valid matrix over exactly those arrays |
| MLConvert.MergedRowOf | src/ksp/pc/impls/ml/ml.c:192-203 | a merged row is as long as A's row plus B's row |
| MLConvert.Interleave | src/ksp/pc/impls/ml/ml.c:189-204 | the first rows merged rows hold as many entries as A's and B's first rows together |
| MLConvert.InterleavePrefix | src/ksp/pc/impls/ml/ml.c:189-204 | merging more rows never changes the rows already merged |
| MLConvert.RowAppended | src/ksp/pc/impls/ml/ml.c:190-204 | appending A's row r and then B's row r to the first r merged rows gives the first r+1 |
| MLConvert.MergedRow | src/ksp/pc/impls/ml/ml.c:190-204 | merged row r sits at ai[r]+bi[r] .. ai[r+1]+bi[r+1]-1 and is A's row r followed by B's row r |
| MLConvert.MergedRowBounded | src/ksp/pc/impls/ml/ml.c:194-200 | a merged row holds entries of the two inputs only, so bounds on both bound it |
| MLConvert.InterleaveBounded | src/ksp/pc/impls/ml/ml.c:194-200 | every merged entry respects bounds that both inputs' entries respect |
| MLConvert.MergedColumnsInRange | src/ksp/pc/impls/ml/ml.c:200-208 | with B's columns moved by an, every merged column lies in 0 .. an+bn-1, the column count of the result |
| MLConvert.MergedRowPointers | src/ksp/pc/impls/ml/ml.c:183-185 | ci[0] == 0, each merged row's length is A's plus B's, and ci[r] == ai[r] + bi[r] |
| MLConvert.MergeRow | src/ksp/pc/impls/ml/ml.c:190-204 | one pass appends merged row r to columns and values, ending at ai[r+1]+bi[r+1] |
| MLConvert.MergeEntries | src/ksp/pc/impls/ml/ml.c:186-205 | fresh arrays of ci[am]+1 entries whose first ci[am] are the merged columns (B's moved by an) and values, so the check k == ci[am] never fails |
| MLConvert.MergeRowValues | src/ksp/pc/impls/ml/ml.c:223-229 | one reuse pass appends row r's values of A then B, nothing after them changes |
| MLConvert.MergeValues | src/ksp/pc/impls/ml/ml.c:218-230 | reuse overwrites exactly the first ai[am]+bi[am] values with the merged values, the rest untouched |
| MLConvert.MergedArrays | src/ksp/pc/impls/ml/ml.c:183-209 | the new arrays form consistent CSR row pointers, full row lengths, merged columns and values, columns within an+bn |
| MLConvert.ConvertInitial | src/ksp/pc/impls/ml/ml.c:182-217 | a fresh valid matrix of am rows and an+bn columns whose rows are A's rows followed by B's, B's columns moved by an |
| MLConvert.ConvertMPIAIJToML | src/ksp/pc/impls/ml/ml.c:169-235 | am != an fails with ERR_ARG_WRONG; INITIAL builds the merged matrix; REUSE refills only prior's values in merged order; any other mode fails with ERR_ARG_WRONG |
| MLConvert.RowLengths | src/ksp/pc/impls/ml/ml.c:209 | every row of the new matrix is full: its length in use is its slot |
| MLGetRow.RowGuard | src/ksp/pc/impls/ml/ml.c:81 | the guard as written (with `\|\|`) is true for every row |
| MLGetRow.Used | src/ksp/pc/impls/ml/ml.c:79-80 | the entries the first requested rows use are never negative |
| MLGetRow.Gathered | src/ksp/pc/impls/ml/ml.c:82-87 | the gathered entries of the first rows are exactly as many as those rows use |
| MLGetRow.Delivered | src/ksp/pc/impls/ml/ml.c:77-80 | the rows delivered all fit together, and the first row not delivered would overrun the space |
| MLGetRow.UsedMonotone | src/ksp/pc/impls/ml/ml.c:80 | fewer requested rows use no more entries |
| MLGetRow.DeliveredFrom | src/ksp/pc/impls/ml/ml.c:77-90 | from any row on, all rows are delivered exactly when all requested rows fit together |
| MLGetRow.FitOneMore | src/ksp/pc/impls/ml/ml.c:80 | a further row that passes the capacity test keeps every earlier prefix fitting |
| MLGetRow.DeliveredExactly | src/ksp/pc/impls/ml/ml.c:77-90 | when the first n rows fit and the next does not, exactly n rows are delivered |
| MLGetRow.AllDeliveredIff | src/ksp/pc/impls/ml/ml.c:80-90 | the answer is 1 exactly when no row is requested or the requested rows fit together |
| MLGetRow.LocalRowsIn | src/ksp/pc/impls/ml/ml.c:79-83 | local rows of a valid matrix have their entries in use inside both entry arrays |
| MLGetRow.CopyRequestedRow | src/ksp/pc/impls/ml/ml.c:82-87 | a row that fits is appended to the columns and values after the earlier rows |
| MLGetRow.TakeRow | src/ksp/pc/impls/ml/ml.c:78-88 | records the row length, answers whether the row fits, appends it when it does and leaves the buffers alone when it does not |
| MLGetRow.GetRow | src/ksp/pc/impls/ml/ml.c:69-91 | returns 1 exactly when every requested row is delivered; the buffers hold the delivered rows one after another, the row lengths are recorded up to the first row that did not fit, and nothing after changes |
| MLCoords.SourceIndexInside | src/ksp/pc/impls/ml/ml.c:435-439 | node k's coordinate ii lies inside an input of stride*nloc tuples |
| MLCoords.SlotOf | src/ksp/pc/impls/ml/ml.c:435 | slot ii*nloc+k is the slot of coordinate ii of node k and lies inside the ndm*nloc slots |
| MLCoords.SourceOfSlot | src/ksp/pc/impls/ml/ml.c:433-441 | the source of every slot lies inside the input |
| MLCoords.Transposed | src/ksp/pc/impls/ml/ml.c:433-441 | the column-major layout holds ndm*nloc numbers |
| MLCoords.TransposedSlot | src/ksp/pc/impls/ml/ml.c:435-439 | slot ii*nloc+k holds input[stride*k*ndm+ii], coordinate ii of node k |
| MLCoords.TransposedCopiesOnly | src/ksp/pc/impls/ml/ml.c:431-441 | every stored number is one of the caller's, so no -999 placeholder survives |
| MLCoords.BlocksFit | src/ksp/pc/impls/ml/ml.c:416-439 | the first rows of aloc/bs blocks of bs rows lie among the aloc tuples passed |
| MLCoords.FillPlaceholder | src/ksp/pc/impls/ml/ml.c:431 | the first n slots become -999, the rest are untouched |
| MLCoords.CopyNode | src/ksp/pc/impls/ml/ml.c:435-439 | node k's coordinates are written to its slots and no other slot changes |
| MLCoords.CopyColumnMajor | src/ksp/pc/impls/ml/ml.c:433-441 | the first ndm*nloc slots become the transposed input and the rest are untouched |
| MLCoords.CoordinateData.constructor | src/ksp/pc/impls/ml/ml.c:1140-1142 | PCCreate_ML starts with no coordinates: dimension 0, no local nodes, no array |
| MLCoords.CoordinateData.SetCoordinates | src/ksp/pc/impls/ml/ml.c:403-443 | a count that is neither nloc nor aloc (a negative one included) fails with ERR_ARG_WRONG and changes nothing; otherwise dim and nloc are set, the array is reallocated exactly when absent or resized, and holds the transposed input (stride 1, or bs for per-row tuples) |
| MLNullSpace.Resolve | src/ksp/pc/impls/ml/ml.c:667-671 | AUTO becomes USER iff a near null space exists, BLOCK iff none and bs > 1, SCALAR otherwise; other kinds are kept |
| MLNullSpace.Status | src/ksp/pc/impls/ml/ml.c:672-702 | USER without a near null space fails with ERR_USER, an unresolved kind with ERR_SUP, every other case succeeds |
| MLNullSpace.ResolveIdempotent | src/ksp/pc/impls/ml/ml.c:667-671 | resolving again leaves a resolved kind alone |
| MLNullSpace.AutoNeverFails | src/ksp/pc/impls/ml/ml.c:667-702 | what AUTO resolves to always passes the checks |
| MLNullSpace.SetupFailsIff | src/ksp/pc/impls/ml/ml.c:667-702 | resolution and checks together fail exactly for USER without a near null space |
| ISColoring.ColoringValueCast | include/petscis.h:274-282 | fails with ERR_ARG_OUTOFRANGE exactly when a < 0 or a >= the maximum; a given out-value is 0 on failure and a on success; none is written when not given |
| DAGhost.CDiv | src/dm/da/src/daghost.c:41 | C division rounds toward zero: the remainder has the dividend's sign and is smaller than the divisor |
| DAGhost.CDivExact | src/dm/da/src/daghost.c:41 | an exact division truncates to the Euclidean quotient and multiplying back gives the dividend |
| DAGhost.CDivOdd | src/dm/da/src/daghost.c:41 | truncating division of a negated dividend is the negated quotient |
| DAGhost.GetGhostCorners | src/dm/da/src/daghost.c:33-44 | returns 0; x and m are Xs and Xe-Xs divided by w, y, n, z, p are the stored values undivided; exactly the given pointers are written |
| DAGhost.GhostCornersInNodes | src/dm/da/src/daghost.c:38-41 | with x extents in multiples of w, x*w and m*w give back Xs and Xe-Xs and x+m is Xe/w |
| SFImpl.RunHasNoDup | include/petsc/private/sfimpl.h:84-88 | a contiguous run repeats no index |
| SFImpl.RunStart | include/petsc/private/sfimpl.h:84-85 | a non-empty run starts at its first index |
| SFImpl.ScanRun | include/petsc/private/sfimpl.h:84-85 | reports whether the indices are the run from their first (0 for none) |
| SFImpl.ScanDups | include/petsc/private/sfimpl.h:88 | reports true exactly when some index occurs twice |
| SFImpl.SFFree | include/petsc/private/sfimpl.h:202-203 | NULL calls nothing and gives 0; otherwise Free is called, success gives 0 and NULL, failure gives 1 and keeps the pointer; the pointer is NULL afterwards iff the result is 0 |
| SFImpl.FreeTwice | include/petsc/private/sfimpl.h:202-203 | after a successful free a second free calls nothing and succeeds |
| SFImpl.FreeFailureCollapses | include/petsc/private/sfimpl.h:203 | all failing Free codes give the same result |
| SFImpl.PartBounds | include/petsc/private/sfimpl.h:75-78 | the self part starts at 0, the remote part ends at the end of rmine, both inside it |
| SFImpl.EmptyPlan | include/petsc/private/sfimpl.h:74-91 | the plan with no ranks satisfies every plan invariant |
| SFImpl.OwnerExists | include/petsc/private/sfimpl.h:77-78 | every position of rmine lies in the slice of some rank |
| SFImpl.OwnerUnique | include/petsc/private/sfimpl.h:77-78 | no position lies in the slices of two ranks |
| SFImpl.PartsCover | include/petsc/private/sfimpl.h:75-78 | the self part followed by the remote part is all of rmine |
| SFImpl.ContiguousPartIsRaceFree | include/petsc/private/sfimpl.h:84-88 | a part marked contiguous is never marked as having duplicates |
| SFImpl.SlotsFromMember | include/petsc/private/sfimpl.h:76-79 | every edge listed from rank k on lies in the slice of some rank k' >= k, under that rank |
| SFImpl.SlotInSlotsFrom | include/petsc/private/sfimpl.h:76-79 | every entry of the slice of a rank k' >= k is listed from rank k on, under that rank |
| SFImpl.GroupedCoversLeaves | include/petsc/private/sfimpl.h:68-79 | a plan of the graph has exactly one rmine and rremote entry per leaf |
| SFImpl.SlotIsEdge | include/petsc/private/sfimpl.h:69-79 | each entry of rank k's slice is an edge of the graph: some leaf at that location references that root on that rank |
| SFImpl.LeafIsListed | include/petsc/private/sfimpl.h:69-79 | each leaf appears, with its location and root index, in the slice of the rank it references |
| SFImpl.ListedRankHasLeaves | include/petsc/private/sfimpl.h:76-78 | every rank in ranks is referenced by some leaf, so its slice is not empty |
| SFImpl.ScanLeafRange | include/petsc/private/sfimpl.h:71 | minleaf and maxleaf are the least and greatest leaf location, both taken by a leaf, with minleaf <= maxleaf; 0 and -1 when there are no leaves |
| SFImpl.AnalysePart | include/petsc/private/sfimpl.h:84-88 | contig iff the indices are the run from start, start is the first index (or 0), dups iff an index repeats |
| SFImpl.AnalysePlan | include/petsc/private/sfimpl.h:74-91 | the plan holds the given ranks and slices and an exact analysis of both parts |
| SFImpl.PetscSF.GraphSetCheck | include/petsc/private/sfimpl.h:100 | the communication gate succeeds exactly when the graph is set, else ERR_ARG_WRONGSTATE |
| SFImpl.PetscSF.constructor | include/petsc/private/sfimpl.h:67-101 | a new star forest has no graph, no leaves, no ranks, no plan set up and no known degrees |
| SFImpl.PetscSF.Reset | include/petsc/private/sfimpl.h:67-101 | back to no graph, no leaves, no ranks, no plan set up, no known degrees |
| SFImpl.PetscSF.SetGraph | include/petsc/private/sfimpl.h:67-101 | records the sizes, each leaf's location and root, and the least and greatest leaf location; sets graphset and drops the plan and the known degrees |
| SFImpl.PetscSF.SetRankPlan | include/petsc/private/sfimpl.h:74-101 | without a graph fails with ERR_ARG_WRONGSTATE and keeps the plan; otherwise installs a plan that lists the graph's edges grouped by rank (so one rmine entry per leaf, and ranks are exactly the ranks remote references), marks it set up, each part marked contiguous exactly when it is the run from its first index (leafstart), and marked as having duplicates exactly when an index repeats; sizes, flag and degrees unchanged |
| SFImpl.PetscSF.GetDegree | include/petsc/private/sfimpl.h:92-100 | needs the graph; while the degrees are known they are returned unchanged, otherwise the computed ones are stored; one degree per root |

## Left out

- The PETSc object system is not part of this model: headers, cookies, logging, the operations tables, destroy and view. The checks `PetscValidHeaderSpecific`, `PetscValidPointer` and `PetscValidIntPointer` are left out too.
- Allocation failure (`PetscMalloc`/`PetscNew` returning NULL with `CHKPTRQ`) is not modelled. Dafny's `new` cannot fail.
- `PetscSortInt` is not part of this model. `SortInt` is an insertion sort that meets the same promise: sorted, and a permutation.
- `ISCreateGeneral` allocates n+1 entries. The model keeps that length but says nothing about the last entry.
- `MatConvert_MPIAIJ_ML`:
  - `MatCreateSeqAIJWithArrays` is not part of this model. The new matrix is taken to have full rows (`RowLengths`).
  - The `free_a`, `free_ij` and `nonew` flags are memory-ownership bookkeeping and are not modelled.
  - `MatSeqAIJGetArrayRead` and its restore are plain reads.
- `ConvertMPIAIJToML`: the REUSE path requires the prior matrix to be present, with room for the merged values. The C code dereferences it without checking.
- `PetscML_getrow`:
  - The failure of `MatGetSize` (ml.c:76) is not modelled. The local row count is the matrix's.
  - `GetRow` requires the requested rows to be local rows. Line 79 reads `ilen[row]` before any guard, and the guard at line 81 never rejects a row.
  - The count of delivered rows is a ghost result, and the C code returns only 0 or 1.
- MLGetRow.GetRow: the column numbers and row lengths are PetscInt in the matrix but `int` in ML's buffers (ml.c:69, 79, 85). With 64-bit PetscInt that store narrows to 32 bits. The model copies unbounded integers and does not capture the narrowing.
- The ML library, MPI and the options database are left out, as foreign calls and I/O. This covers everything else in ml.c, including building the USER near null space (lines 674-693, floating point and ML calls).
- `SetCoordinates`:
  - `MatGetBlockSize` and `MatGetOwnershipRange` become the parameters `bs`, `my0` and `iend`.
  - `ndm >= 0` is required. When the count is accepted, the caller's array must hold at least `aNloc*ndm` numbers, which the C code assumes without checking.
  - `PetscFree` of the old array is implicit.
- `SFImpl.PetscSF`:
  - The communication algorithms (SetUp, Bcast, Reduce, FetchAndOp), the MPI groups, `multi`, `rankssf`, the vscat block and the device fields are not part of this model.
  - The C pair `nranks`/`ranks` is merged into one sequence, so `nranks == |ranks|` holds by construction. `mine_alloc` and `remote_alloc` (ownership of the caller's arrays) are not modelled, and `mine` is always an explicit list of locations.
  - The computed degrees are passed to `GetDegree` as a parameter.
  - `SetGraph`'s argument checks live in code this model does not include. It requires non-negative sizes and one location and one root per leaf.
- SFImpl.PetscSF.SetRankPlan: the plan is built by `PetscSFSetUpRanks` in sf.c, which is not part of this model. It is passed in ready-built, and the requires states what that routine promises: the plan lists the graph's edges (`mine`, `remote`) grouped by rank, with distinct ranks. The model does not capture the order in which ranks or edges are listed.
- SFImpl.ScanLeafRange: with no leaves the model uses the empty range 0 .. -1. What sf.c stores in that case is not part of this model.
- `SFImpl.SFFree` models the device build (sfimpl.h:203). The host build maps to `PetscFree`, which is not part of this model.
- `DAGhost.GetGhostCorners`: the header check on `da` is left out, and `w > 0` is required (the degrees of freedom per node).
- `ISColoring.ColoringValueCast`: `PETSC_IS_COLORING_MAX` is fixed at configure time, so it is a parameter.
