# Algebraic immunity over GF(2), modelled in Dafny

The Rust library computes the **algebraic immunity** of a Boolean function
given as a truth table: the least degree of a nonzero polynomial that
vanishes on the one-set or on the zero-set of the function. It searches
incrementally. Points of the chosen set and monomials in ascending degree are
added one at a time to a 0/1 evaluation matrix. The matrix is kept in reduced
row-echelon form by Gauss–Jordan elimination over GF(2), and every row
operation goes into a log so that the next column can be brought up to date
by replaying it. The first rank deficiency gives a candidate annihilator (a
kernel vector), which is then checked against the points not yet in the
matrix.

The project has three modules:

- `Gf2` (`gf2.dfy`): bits, parity, dot products, the row-operation log and
  its replay on vectors and on matrices, and how a replay commutes with
  growing a matrix.
- `Vandermonde` (`vandermonde.dfy`): the monomial evaluation `str_ops`,
  `is_submonomial`, `verify`, `apply_operations`, and the class
  `VanderMonde`. Its field `elements` is a `seq<seq<int>>`, and its methods
  mirror the Rust ones: `row_echelon_form`, `rank`, `kernel`,
  `compute_next`, `fill_rows`, the row and column appends and `swap_rows`.
- `Ai` (`ai.dfy`): `compute_z`, `generate_combinations`, `hamming_weight`,
  the search `find_min_annihilator` and `algebraic_immunity`. Each of the last
  two comes as written (`FindMinAnnihilator`, `AlgebraicImmunityOf`) and in a
  corrected version (`FindMinAnnihilatorCorrected`,
  `AlgebraicImmunityCorrected`). Around them is the algebra: an *annihilator*
  of a point set over a monomial list is a nonzero 0/1 coefficient vector
  whose polynomial is 0 at every point.

The methods that change state (`row_echelon_form`, the search loop, the
appends and swaps, `apply_operations`, the push loops of `compute_z` and
`generate_combinations`) are imperative Dafny; those with loops carry loop
invariants. The appends and swaps state their whole new matrix. The loops of `apply_operations`, `rank`, `kernel`, `compute_z` and
`generate_combinations` are proved equal to pure functions (`Replay`,
`PivotColumns`, `ScanColumns` and `KernelVector`, `Partition`, `Layers`), and
the lemmas are stated about those functions. `row_echelon_form` is proved to
return a reduced row-echelon form that is the replay of the log it returns.
The search loop of `find_min_annihilator` is proved to keep the invariant
`SearchState`, and each way out of it comes with its evidence.

After its loop, `find_min_annihilator` tests `rank < i + 1`
(src/ai.rs:136). The matrix then has at most `i` rows, so the test always
holds, and lines 140-149 never run. Those dead lines show what was meant.
When the matrix has full rank and monomials remain, the answer should be
the weight of the next monomial `e[i]`. When none remain, it should be the
weight of the last one. `FindMinAnnihilator` and `AlgebraicImmunityOf`
follow the code as written. `FindMinAnnihilatorCorrected` and
`AlgebraicImmunityCorrected` test `rank < i` instead. The difference is
recorded under Findings, with an input on which the two answers differ.

## Model

| member | source | states |
|---|---|---|
| Gf2.Xor | src/vandermonde.rs:132 | `^` on two bits is their sum mod 2 and is again a bit |
| Gf2.SwapTripleVector | src/vandermonde.rs:60-65 | replaying the logged triple `(r,i),(i,r),(r,i)` on a 0/1 vector exchanges entries r and i |
| Gf2.SwapTripleRows | src/vandermonde.rs:60-65 | replaying the same triple on the rows of a 0/1 matrix exchanges rows r and i |
| Gf2.ReplayRowsConcat | src/ai.rs:133 | replaying the extended log `ops1 + ops2` is replaying `ops1` and then `ops2` |
| Gf2.ColumnOfReplayRows | src/vandermonde.rs:66-72 | column j of the matrix after a row-operation log is the log replayed on column j of the input |
| Gf2.ReplayExtend | src/vandermonde.rs:149-169 | a log on the old rows commutes with appending a column and a row: the appended column is replayed and the new row is untouched |
| Gf2.ReplayWiden | src/vandermonde.rs:164-165 | a log commutes with appending a column: the column is replayed |
| Gf2.ReplayBits | src/vandermonde.rs:196-202 | replaying a log on a 0/1 vector gives a 0/1 vector |
| Gf2.OrthogonalBeforeReplay | src/vandermonde.rs:38-78 | a vector with dot product 0 against every row after a log of distinct-index XORs had dot product 0 against every original row |
| Gf2.OrthogonalAfterReplay | src/vandermonde.rs:38-78 | a vector orthogonal to every row stays orthogonal to every row after any log |
| Vandermonde.StrOps | src/vandermonde.rs:185-194 | the product of `p_k^m_k` over the zipped positions; on 0/1 strings it is 1 iff no position has monomial '1' and point '0', and 0 otherwise |
| Vandermonde.IsSubmonomial | src/vandermonde.rs:205-214 | true iff every character of the sub-monomial is at most the character of the monomial at the same position |
| Vandermonde.StrOpsIsSubmonomial | src/vandermonde.rs:185-214 | for equal-length 0/1 strings, `str_ops(point, m)` is 1 exactly when `m` is a sub-monomial of `point`, and 0 otherwise |
| Vandermonde.Evaluation | src/vandermonde.rs:171-181 | the evaluation matrix has one row per point and one 0/1 column per monomial |
| Vandermonde.Verify | src/vandermonde.rs:216-228 | the flag is true iff the selected coefficients have even sum at every point, and then no index is returned; otherwise it returns the first point whose sum is odd, with its index, and all earlier points are even |
| Vandermonde.VerifyFrom | src/vandermonde.rs:217-226 | the same, for the points from a given index on |
| Vandermonde.AnfIsPolyEval | src/vandermonde.rs:218-223 | the parity of the coefficients whose monomial divides the point is the polynomial's value at the point |
| Vandermonde.AnfParity | src/vandermonde.rs:218-223 | filtering the coefficients by `is_submonomial` keeps the parity of the term list where the other terms are 0 |
| Vandermonde.VerifyMeansVanishing | src/vandermonde.rs:216-228 | the flag of `verify` is true iff the polynomial is 0 at every point |
| Vandermonde.ApplyOperations | src/vandermonde.rs:196-202 | the loop result is the log replayed on the vector, entry `op1` becoming `(v[op1] + v[op2]) % 2` in log order, with the length kept |
| Vandermonde.PivotColumnsBounds | src/vandermonde.rs:90-103 | the set of pivot columns over the first t rows has at most t elements, all below the width |
| Vandermonde.NoOnesNoPivots | src/vandermonde.rs:90-103 | a matrix with no 1 has no pivot column, so its rank is 0 |
| Vandermonde.ScanPairsShape | src/vandermonde.rs:114-121 | the scan pairs row s with a column holding 1 in row s, and the pivot columns ascend |
| Vandermonde.ScanFreeShape | src/vandermonde.rs:114-121 | the free columns ascend and none of them is a pivot column |
| Vandermonde.ScanPivots | src/vandermonde.rs:114-121 | the loop produces the pivot pairs and free columns of the column scan |
| Vandermonde.PivotSum | src/vandermonde.rs:128-134 | the XOR loop over the columns other than the pivot gives `SkipSum` |
| Vandermonde.SkipSumIsParity | src/vandermonde.rs:128-134 | that XOR is the parity of the row-times-vector products with the pivot entry cleared |
| Vandermonde.SolveFreeColumn | src/vandermonde.rs:123-139 | the back-substitution loop for one free column gives `KernelVector` |
| Vandermonde.SolveClosedForm | src/vandermonde.rs:127-137 | on an echelon matrix each back-substitution step sets the pivot entry to that row's entry in the free column |
| Vandermonde.KernelAnnihilates | src/vandermonde.rs:123-139 | each kernel vector has 1 at its own free column and 0 at every other free column, and its dot product with every row is 0 |
| Vandermonde.EchelonScan | src/vandermonde.rs:105-121 | on an echelon matrix the scan finds the true pivots, as many as the rank, and every other column is free |
| Vandermonde.EchelonKernel | src/vandermonde.rs:105-143 | on an echelon matrix each kernel vector has the matrix width, is 0/1, has 1 at its free column and satisfies `M·v = 0 (mod 2)` |
| Vandermonde.KernelOrderIrrelevant | src/vandermonde.rs:127 | the kernel vector does not depend on the order of the pivot map, so the HashMap order does not matter |
| Vandermonde.FullRankOnlyZero | src/vandermonde.rs:90-143 | when the rank equals the width, only the zero vector is orthogonal to every row |
| Vandermonde.FullRankIdentity | src/vandermonde.rs:38-103 | a square echelon matrix of full rank is the identity |
| Vandermonde.EvaluationGrow | src/vandermonde.rs:149-169 | the log replayed on the evaluation over i+1 points and monomials is the replayed i×i evaluation extended by the replayed new column and the raw new row |
| Vandermonde.VanderMonde.constructor | src/vandermonde.rs:8-10 | the matrix holds the given rows |
| Vandermonde.VanderMonde.NCols | src/vandermonde.rs:25-31 | 0 for an empty matrix, otherwise the length of the first row, and that is the width of every row of a rectangular matrix |
| Vandermonde.VanderMonde.SwapRows | src/vandermonde.rs:34-36 | rows `row1` and `row2` are exchanged and nothing else changes |
| Vandermonde.VanderMonde.GetPivot | src/vandermonde.rs:145-147 | the first position holding 1, or None iff no entry is 1 |
| Vandermonde.VanderMonde.AddRowInto | src/vandermonde.rs:68-70 | the target row becomes its entrywise sum mod 2 with the source row |
| Vandermonde.EliminationLogShape | src/vandermonde.rs:66-73 | every entry of the elimination log is `(i, r)` with `i ≠ r` and a 1 at `lead` in row i; the rows ascend; and every such row below the bound is logged |
| Vandermonde.VanderMonde.EliminateColumn | src/vandermonde.rs:66-73 | afterwards only the pivot row has 1 in the lead column; the returned log is `EliminationLog`, exactly the pairs `(i, r)` for the rows i ≠ r with a 1 at `lead`, in row order; the new matrix is the replay of that log |
| Vandermonde.VanderMonde.FindPivotRow | src/vandermonde.rs:49-59 | finds the first column at or after `lead` with a nonzero entry at or below row r, and the first such row; reports when every column is used up |
| Vandermonde.VanderMonde.SwapLogged | src/vandermonde.rs:60-65 | swaps rows r and i, logs the XOR triple when r differs from i, and the swap equals the replay of that log |
| Vandermonde.VanderMonde.ReduceRow | src/vandermonde.rs:45-75 | one round of the outer loop either adds a pivot, keeping the reduction invariant, or ends the elimination with the matrix unchanged |
| Vandermonde.VanderMonde.RowEchelonForm | src/vandermonde.rs:38-78 | returns a fresh copy of the same shape with 0/1 entries in reduced row-echelon form, equal to the returned log replayed on the input; an already reduced input gives an empty log and the same matrix |
| Vandermonde.VanderMonde.AppendRow | src/vandermonde.rs:80-82 | the row is appended at the end |
| Vandermonde.VanderMonde.AppendColumn | src/vandermonde.rs:84-88 | row k gains `v[k]` at its end, and the number of rows is unchanged |
| Vandermonde.VanderMonde.Rank | src/vandermonde.rs:90-103 | the number of distinct first-1 columns over all rows, at most the number of rows and at most the width |
| Vandermonde.VanderMonde.Kernel | src/vandermonde.rs:105-143 | one vector per free column of the scan, in scan order, each the back-solved kernel vector of that column |
| Vandermonde.VanderMonde.ComputeNext | src/vandermonde.rs:149-169 | returns a fresh matrix that is the old one with the column of the last monomial at the earlier points, replayed through the log, and a last row evaluating every monomial at the last point |
| Vandermonde.VanderMonde.FillRows | src/vandermonde.rs:171-181 | returns a fresh matrix with one evaluation row per support point appended |
| Ai.HammingWeight | src/ai.rs:156-158 | the count of '1' characters, at most the length, and 0 iff there is no '1' |
| Ai.HammingWeightSet | src/ai.rs:78-82 | setting a clear position to '1' adds one to the weight |
| Ai.HammingWeightConcat | src/ai.rs:156-158 | the weight of a concatenation is the sum of the weights |
| Ai.Binary | src/ai.rs:27 | the `b` format gives at least one 0/1 digit |
| Ai.BinaryValue | src/ai.rs:27 | the `b` digits of i denote i |
| Ai.ZeroPaddedValue | src/ai.rs:27 | the zero-padded rendering of i denotes i at any width |
| Ai.ZeroPaddedWidth | src/ai.rs:27 | for i below `2^width` and a width of at least 1, the rendering has exactly `width` digits |
| Ai.Partition | src/ai.rs:21-37 | the two lists together have one entry per table index |
| Ai.PartitionSound | src/ai.rs:21-37 | every string of the first list denotes an index whose entry is 1, and of the second an index whose entry is not 1; both lists ascend |
| Ai.PartitionComplete | src/ai.rs:21-37 | every index appears, rendered, in the list its entry selects |
| Ai.PartitionWords | src/ai.rs:21-37 | for a table of at most `2^n` entries every string is an n-digit 0/1 string |
| Ai.PartitionEmpty | src/ai.rs:44-46 | the first list is empty iff no entry is 1, and the second iff every entry is 1 |
| Ai.AlgebraicImmunity.constructor | src/ai.rs:17-19 | the object holds the given truth table |
| Ai.AlgebraicImmunity.ComputeZ | src/ai.rs:21-37 | the push loop produces exactly the one-set and the zero-set of `Partition` |
| Ai.CombinationsSound | src/ai.rs:77 | every listed k-combination of `lo..n` has k strictly increasing positions in range |
| Ai.CombinationsComplete | src/ai.rs:77 | every increasing list of positions in `lo..n` is listed among the combinations of its size |
| Ai.CombinationsCount | src/ai.rs:77 | there are `C(n - lo, k)` k-combinations |
| Ai.CombinationsOrdered | src/ai.rs:77 | the combinations come in strictly ascending lexicographic order, so none repeats |
| Ai.MonomialOf | src/ai.rs:78-82 | the string has n 0/1 characters |
| Ai.MonomialWeight | src/ai.rs:78-82 | the string of a k-combination has weight k |
| Ai.MonomialInjective | src/ai.rs:78-82 | different combinations give different strings |
| Ai.AlgebraicImmunity.BinaryString | src/ai.rs:78-82 | setting the positions in a '0' string and reversing it gives `MonomialOf`: position p is character `n-1-p` |
| Ai.AlgebraicImmunity.GenerateCombinations | src/ai.rs:73-88 | the nested push loops produce `Layers(n, r+1)`, the blocks of weights 0..r one after the other |
| Ai.BlockWeight | src/ai.rs:76-84 | every string of block k has weight k |
| Ai.LayersWeights | src/ai.rs:73-88 | every string is an n-digit 0/1 string of weight at most r, and weights never decrease along the list |
| Ai.LayersDistinct | src/ai.rs:73-88 | no string is listed twice |
| Ai.LayersFirst | src/ai.rs:73-88 | the list is non-empty and starts with the all-'0' string |
| Ai.LayersCount | src/ai.rs:73-88 | the list has `Σ_{k≤r} C(n,k)` entries |
| Ai.VanishesPermuted | src/ai.rs:126 | whether a polynomial vanishes does not depend on the order of the points, so the swap is harmless |
| Ai.NoAnnihilatorWider | src/ai.rs:110-134 | no annihilator on some points means none on any superset of them |
| Ai.VanishesIffOrthogonal | src/ai.rs:112-118 | a polynomial vanishes on the points iff its coefficient vector is orthogonal to every row of the evaluation matrix |
| Ai.KernelAnnihilator | src/ai.rs:116-118 | a kernel vector of the reduced evaluation matrix is an annihilator of the points in the matrix |
| Ai.FullRankNoAnnihilator | src/ai.rs:116 | when the reduced evaluation matrix has full rank, the points have no annihilator over those monomials |
| Ai.NextMonomialAnnihilates | src/ai.rs:136-141 | after a full-rank square matrix, the replayed column of the next monomial with a 1 appended is an annihilator over one more monomial |
| Ai.InitialState | src/ai.rs:100-106 | the 1×1 start matrix with an empty log satisfies the search invariant |
| Ai.GrowMatrix | src/ai.rs:112 | the matrix `compute_next` builds is the log replayed on the raw evaluation over the first i+1 points and monomials |
| Ai.GrowAndReduce | src/ai.rs:112-114 | the grown and reduced matrix is the extended log replayed on that evaluation and is in echelon form |
| Ai.FailingSwap | src/ai.rs:124-127 | swapping the first failing point to position i+1 keeps the first i+1 points and the multiset of points, and puts the failing point at i+1 |
| Ai.FirstKernelVector | src/ai.rs:116-118 | when the rank is short, `kernel` is non-empty and its first vector annihilates the points in the matrix |
| Ai.CheckRest | src/ai.rs:120-128 | when `verify` accepts, the candidate annihilates every point of the input; otherwise the prefix and the multiset are kept and the candidate is 1 at the point moved to i+1 |
| Ai.StateAdvance | src/ai.rs:131-133 | the counters and extended log re-establish the search invariant |
| Ai.SearchStep | src/ai.rs:110-134 | one loop iteration returns with an annihilator over `e[..=i]` or keeps the invariant for the next i, with the rank test recorded |
| Ai.ExhaustedShort | src/ai.rs:136-137 | when the loop ends rank-deficient, an annihilator over `e[..i]` exists |
| Ai.ExhaustedNext | src/ai.rs:140-141 | when the loop ends at full rank and monomials remain, an annihilator over `e[..=i]` exists |
| Ai.ExhaustedNone | src/ai.rs:144-145 | at full rank with all monomials used, no annihilator over `e` exists |
| Ai.ExhaustedWitness | src/ai.rs:136-149 | an exhausted loop yields the annihilator or the non-existence fact each branch after the loop relies on |
| Ai.RunSearch | src/ai.rs:100-134 | the loop stops with an annihilator over `e[..=i]`, or by running past `e`, or with all points used; the final rank decides the evidence; a single point never enters the loop |
| Ai.AlgebraicImmunity.FindMinAnnihilator | src/ai.rs:90-150 | as written: None iff `e` is empty, a panic only when there are more points than monomials, every answer the weight of some `e[index]`, the early return backed by an annihilator; without one the index is `|z|-1`, and one point always gives the weight of `e[0]` |
| Ai.AlgebraicImmunity.FindMinAnnihilatorCorrected | src/ai.rs:90-150 | the same search with the post-loop test as `rank < i`: every answer is the weight of `e[index]` and comes with an annihilator over `e[..=index]`, or with the proof that none exists over all of `e` |
| Ai.MinSome | src/ai.rs:63-66 | `flatten().min()`: None iff every entry is None, otherwise an entry present and no larger than any value present |
| Ai.LeastOfTwo | src/ai.rs:63-66 | with both answers present, `flatten().min()` followed by the `None => 0` arm gives one of the two, no larger than either |
| Ai.CombinedBound | src/ai.rs:63-66 | when both answers are weights of listed monomials, the combined answer is bounded by any bound on those weights |
| Ai.AlgebraicImmunity.BothSearches | src/ai.rs:51-66 | runs the search as written on both parts: each run carries the facts of `FindMinAnnihilator`; the outcome is a panic exactly when either run panics, and otherwise the least of the two answers (0 if neither had one) |
| Ai.AlgebraicImmunity.BothSearchesCorrected | src/ai.rs:51-66 | the same over the corrected search, each run backed by an annihilator or by the non-existence of any |
| Ai.WrittenSinglePoint | src/ai.rs:136-137 | when a part has one point, the search as written answers the weight of the all-'0' first monomial, so the combined answer is 0 |
| Ai.WrittenTopHolds | src/ai.rs:48-66 | from the two runs as written: the combination is as `algebraic_immunity` forms it, it is 0 whenever a part has one point, and it is bounded by the monomial weights |
| Ai.CorrectedTopHolds | src/ai.rs:48-66 | from the two corrected runs: the combination is as `algebraic_immunity` forms it and is bounded by the monomial weights |
| Ai.PanicOverflows | src/ai.rs:48-49 | a search can only panic when one part has more points than there are monomials of degree at most `(n+1)/2` |
| Ai.AlgebraicImmunity.SearchWrittenParts | src/ai.rs:48-66 | for two non-empty parts: builds the monomial list, runs both searches as written, and gives the combination, at most `(n+1)/2`, panicking only on overflow |
| Ai.AlgebraicImmunity.SearchCorrectedParts | src/ai.rs:48-66 | the same over the corrected search |
| Ai.AlgebraicImmunity.AlgebraicImmunityOf | src/ai.rs:40-67 | as written: 0 for a constant table; every answer at most `(n+1)/2`; a panic only when a part has more points than there are monomials of degree at most `(n+1)/2`; for a non-constant table both runs are those of `BothSearches` on the two parts, combined as the minimum or a panic, and 0 when a part has one point |
| Ai.AlgebraicImmunity.AlgebraicImmunityCorrected | src/ai.rs:40-67 | the same on the corrected search: for a non-constant table each run's answer is the weight of a listed monomial, backed by an annihilator of that part or by the non-existence of any over the whole list |
| Ai.AndTablePartition | src/ai.rs:21-37 | the table `[0,0,0,1]` with n = 2 splits into `["11"]` and `["00","01","10"]` |
| Ai.AndTableMonomials | src/ai.rs:73-88 | for n = 2 and r = 1 the monomials are `"00","01","10"` |
| Ai.AndTableCounterexample | src/ai.rs:136-137 | for that table the one-set has one point, for which the code as written answers the weight of `"00"`, 0; yet the constant monomial does not annihilate `"11"` and `1 + x` does, so the intended answer is 1 |
| Ai.AndTableNoOverflow | src/ai.rs:48-49 | that table overflows neither part, so neither version can panic on it |
| Ai.AndTableZerosNoConstant | src/ai.rs:136-137 | the constant monomial does not annihilate the zero-set `"00","01","10"` either |
| Ai.AndTableBacked | src/ai.rs:90-150 | on either part of that table, a `Backed` answer (the corrected search's) is 1 |
| Ai.AndTableAsWritten | src/ai.rs:40-67 | `algebraic_immunity([0,0,0,1], 2)` as written returns 0 |
| Ai.AndTableCorrected | src/ai.rs:40-67 | the corrected `algebraic_immunity([0,0,0,1], 2)` returns 1, the degree of the annihilator `1 + x` of the one-set |

## Left out

- PyO3 registration (`src/lib.rs`), the `#[pyclass]`/`#[pymethods]` attributes and `VanderMonde::__repr__`: these are bindings and presentation.
- The rayon `par_iter` in `algebraic_immunity` is modelled as two sequential calls. The branches share no state, and a panic in either branch is a panic of the whole.
- The `u8` sum in `verify` is modelled as a parity. In a release build wrap-around mod 256 keeps the parity, which is all the `% 2` reads; a debug build panics instead once more than 255 selected coefficients are 1 (src/vandermonde.rs:223), which is possible from n = 9 on.
- `to_digit(10).unwrap()` and `assert_eq!` in `str_ops`/`is_submonomial` become preconditions (digit strings, equal lengths), and so does `z[0]` when `e` is non-empty. Slicing `e[..=i]` past the end is modelled as an explicit `Panic` outcome.
- HashMap and HashSet iteration order: pivots are visited in ascending column order. `KernelOrderIrrelevant` shows that the order does not matter on a reduced matrix.
- `itertools::combinations` is specified directly as `Combinations` (k-subsets in lexicographic order). `format!("{:0width$b}")` is modelled by `ZeroPadded`.
- The `None => 0` arm of `algebraic_immunity` is modelled by `LeastOrZero`. With two non-empty parts and a non-empty monomial list both searches return `Some`, so that arm is never taken.
- AlgebraicImmunityOf: requires a table of at most `2^n` entries, so that every point is an n-digit string; a longer table would give points of different lengths. The degree is not proved to be the true algebraic immunity, because the code as written is not (see Findings).
- AlgebraicImmunityCorrected: this is the corrected model, not the program as written. Its answer is backed by an annihilator of that degree, but is not proved minimal, i.e. equal to an exhaustive annihilator search.
- FindMinAnnihilatorCorrected: the answer is backed by an annihilator of that degree, but is not proved minimal.
- With n = 0, `format!` renders index 0 as "0", one character. The width lemmas therefore assume n ≥ 1. The constant-table case covers n = 0.
- `u8` and `usize` widths: matrix entries are `int` values proved to be 0 or 1, and indices are unbounded `nat`.
- StrOps: the model computes the product over unbounded `nat`. `str_ops` uses `u8` `pow` and `product` (src/vandermonde.rs:189-193), which can overflow for digits 2 to 9 (for instance `2^8`, `3^6` or a long product). That cannot happen on the 0/1 strings the library passes, and on those the two agree.
- The Python packaging script and the SageMath test suite are not part of this model.

## Findings

| source | as written | input that shows it | evidently intended | confidence | as-written member | corrected member |
|---|---|---|---|---|---|---|
| src/ai.rs:136-137 | after the loop `rank < i + 1` always holds (rank ≤ i rows), so the result is the weight of `e[i-1]` and lines 140-149 are dead | truth table `[0,0,0,1]`, n = 2: the one-set `["11"]` has one point, so the answer is the weight of `"00"`, giving an algebraic immunity of 0, while `1 + x` annihilates `"11"` and no degree-0 polynomial does, so the answer is 1 | test `rank < i`; at full rank, the weight of the next monomial `e[i]` when one remains, else of the last | not executed | Ai.AlgebraicImmunity.FindMinAnnihilator, Ai.AlgebraicImmunity.AlgebraicImmunityOf, Ai.AndTableCounterexample, Ai.AndTableAsWritten | Ai.AlgebraicImmunity.FindMinAnnihilatorCorrected, Ai.AlgebraicImmunity.AlgebraicImmunityCorrected, Ai.AndTableCorrected |
