# Sudoku solver core, modelled in Dafny

This project models the engine of a small C# Sudoku solver. A puzzle is a table
of `N × N` cells (`N = B²`, where `B` is the block length). Each cell has a
block, row and column index, an optional value and a set of probable values
(candidates). A `Range` is an ordered subset of the table's cells. Each solving
strategy looks at a range and either narrows the candidates of some cells
(placing a value in the case of a solved cell) or reports that it found nothing.
The `Sudoku` object keeps a list of stages, one snapshot of the table for each
step that succeeded. Solving repeats two things until neither makes progress:
it places a cell that has exactly one candidate, and it runs the two
candidate filters over every block, row and column.

How the model is laid out:

- `Cells` (cell.dfy): the mutable `Cell` class and its value snapshot `CellState`.
- `Ranges` (range.dfy): a range as a sequence of positions in the table's cell
  list, and every query on it, as functions over a grid snapshot `seq<CellState>`.
- `Tables` (table.dfy): the `Table` class, with its cell list, its cell matrix,
  block indexing, block/row/column selection, the correctness check, and
  cloning. Its in-place edits are `PlaceValue`, `ClearCandidates`,
  `AddCandidate` and `RemoveCandidate`. Each of these states the table's whole
  new grid.
- `Edits` (edits.dfy): `RemoveProbableValues` and `KeepProbableValues`, with the
  total-candidate measure `CandCount`.
- `Combinatorics` (combinations.dfy): the recursive k-combination enumerator.
- `Singles`, `Subsets`, `Intersections` (singles.dfy, subsets.dfy,
  intersections.dfy): the strategy rules of the strategy helper.
- `Solver` (sudoku.dfy): the initial candidate computation, the solved-cell
  step, the two filters, the filter driver, the solve loop and the `Sudoku`
  class.

Every strategy that edits a table is a method on a `Table`. Its postcondition
says that the success flag and the new grid are exactly the outcome of a
specification function applied to the old grid, for example
`Outcome(success, t.Grid()) == HiddenStep(old(t.Grid()), r, maxDepth)`. A
separate `…Meaning` lemma then states, in terms of the grid, what that outcome
is:

- on success, which cell or cells were picked and why they qualify, what exactly
  changed, and that it was the first such candidate in the source's scan order;
- on failure, that the grid is unchanged and that no candidate in the scan
  qualifies.

The solve loop is proved to terminate, because each successful round strictly
decreases the total number of candidates (`RoundShrinks`). It is also proved to
end only when a further round would fail.

Every scan over a `HashSet<int>` is modelled in ascending order (`Sets.Sorted`).
This is a chosen abstraction. .NET enumerates a `HashSet<int>` in insertion
order. A single cell's candidate set is still ascending in the program, because
it is filled 1..N and then only shrinks, or is cleared and given one value.
The union built by `Range.GetProbableValuesHashSet` is not: it lists digits in
the order they first appear cell by cell, so candidates {5, 7} then {2, 5} give
5, 7, 2. Where several digits qualify, the rules that scan that union can
therefore pick a different digit in the program than the least one the model
picks (see "## Left out").

## Model

| member | source | states |
|---|---|---|
| Cells.Cell.constructor | Cell.cs:15-22 | a new cell has the given block/row/column, no value, no candidates and is not a default cell |
| Cells.Cell.ContainsAnyValue | Cell.cs:24-43 | the early-exit scan (value first, then candidates) answers true iff the cell's value, when it has one, is in the set or some candidate is, and agrees with the predicate the rest of the model uses |
| Cells.Cell.ContainsAllValues | Cell.cs:51-62 | the early-exit scan over the candidates answers true iff the candidates are a subset of the set (so a cell without candidates contains all of any set), and agrees with the predicate the rest of the model uses |
| Cells.OverloadsAgree | Cell.cs:45-49 | the array overloads of ContainsAnyValue and ContainsAllValues agree with the set versions on the set of the array's elements |
| Cells.Cell.Clone | Cell.cs:70-80 | the copy is a fresh cell with the same indices, value, candidates and default flag |
| Cells.CloneIsIndependent | Cell.cs:70-80 | a demonstration of the deep copy: setting a clone's candidates and clearing it leave the original cell's state unchanged (in general, Clone's result is fresh) |
| Cells.Cell.Clear | Cell.cs:82-86 | clearing drops the value and all candidates and keeps indices and the default flag |
| Ranges.Select | Range.cs:16-19 | the result holds exactly the positions of the range whose cell satisfies the predicate, in the range's order |
| Ranges.Find | Sudoku.cs:125 | returns the first position in range order whose cell satisfies the predicate, or none when no cell does |
| Ranges.EmptyFilledPartition | Range.cs:21-29 | empty and filled cells partition the range: each position is in exactly one part and the sizes add up to the range's size |
| Ranges.AnyValueSet | Range.cs:31-43 | v is in the set iff some cell of the range contains v, as its value or as one of its candidates |
| Ranges.ValuesSet | Range.cs:45-57 | v is in the set iff some cell of the range holds value v |
| Ranges.CandidateSet | Range.cs:59-70 | v is in the set iff some cell of the range has candidate v |
| Ranges.RowsSet | Range.cs:72-81 | the set of row indices is exactly the rows of the range's cells |
| Ranges.ColumnsSet | Range.cs:83-92 | the set of column indices is exactly the columns of the range's cells |
| Ranges.ContainsMeaning | Range.cs:94-116 | ContainsProbableValue(v) iff v is a candidate set member; ContainsAnyValue(v) iff v is a value or a candidate of the range |
| Ranges.GetEmptyCellsCount | Range.cs:118-129 | the count equals the number of empty cells of the range |
| Ranges.GetIsCorrect | Range.cs:131-147 | true iff no two cells of the range hold the same value (cells without a value are ignored) |
| Ranges.RowsSetOne | StrategyHelper.cs:125-126 | a range spans exactly one row iff its row set has one element |
| Ranges.ColumnsSetOne | StrategyHelper.cs:133-134 | a range spans exactly one column iff its column set has one element |
| Tables.Table.constructor | Table.cs:16-27 | the table has length B·B and a B·B-by-B·B matrix; when initializing, it holds B⁴ fresh empty cells in row-major order with the right block/row/column and the matrix indexes them |
| Tables.Table.InitializeCells | Table.cs:103-120 | cell k sits at row k / N, column k % N, block (row / B)·B + column / B, empty and without candidates |
| Tables.Table.InitializeCellsFrom | Table.cs:122-131 | the new cells are fresh clones whose states equal the source cells' states, in order |
| Tables.Table.InitializeMatrix | Table.cs:133-139 | the matrix maps each (row, column) to the cell at that position, so the table is valid |
| Tables.Table.At | Table.cs:11 | the indexer returns a cell of the table with that row and column |
| Tables.AllCells | Table.cs:12 | the whole-table range lists every position once, in order |
| Tables.SelectBlock | Table.cs:35-38 | the block range holds exactly the table's cells with that block index, in table order |
| Tables.SelectRow | Table.cs:40-43 | the row range holds exactly the table's cells in that row, in table order |
| Tables.SelectColumn | Table.cs:45-48 | the column range holds exactly the table's cells in that column, in table order |
| Tables.BlockInRange | Table.cs:105-112 | the block index of a cell lies in 0..N-1 |
| Tables.GridIsCorrect | Table.cs:50-80 | true iff every block, every row and every column has pairwise distinct values |
| Tables.IsCorrectMeaning | Table.cs:50-80 | the table is correct iff no two peer cells (same block, row or column) hold the same value |
| Tables.Table.IsCorrect | Table.cs:50-80 | the table method answers exactly the block/row/column distinctness check on its grid |
| Tables.Table.IsFilled | Table.cs:82-85 | the table is filled iff it has no empty cell |
| Tables.Table.Clone | Table.cs:87-92 | the copy is a fresh valid table of the same block length whose grid equals the original's |
| Tables.CloneIsIndependent | Table.cs:87-92 | a demonstration of the deep copy: clearing a cell of the clone and placing a value in it leave the original table's grid unchanged (in general, Clone's table and cells are fresh) |
| Edits.RemoveValues | StrategyHelper.cs:364-370 | one cell loses exactly the listed values; the count is how many of them were candidates |
| Edits.KeepValues | StrategyHelper.cs:386-395 | one cell keeps only the candidates in the keep set; the count is how many it lost |
| Cells.Cell.RemoveCandidate | StrategyHelper.cs:366 | removing a value drops it from the candidates, leaves the rest of the cell as it was, and reports whether it was a candidate |
| Edits.RemoveProbableValues | StrategyHelper.cs:360-376 | every cell of the range loses the given values; other cells are unchanged; the count is the number of candidates actually removed |
| Edits.KeepProbableValues | StrategyHelper.cs:378-399 | every cell of the range keeps only the given values; other cells are unchanged; the count is the number of candidates actually removed |
| Edits.RefinesCount | StrategyHelper.cs:360-399 | narrowing candidates never raises the candidate total, and leaves it equal only if nothing changed |
| Edits.ErasedIffChanged | StrategyHelper.cs:360-399 | for a narrowing edit, a positive removal count and a changed grid go together |
| Combinatorics.IterateCombinationsInternal | StrategyHelper.cs:408-429 | the combinations emitted from a level are exactly the completions of the current prefix with later values, in lexicographic order of positions |
| Combinatorics.ChooseAt | StrategyHelper.cs:415-427 | one pass of the loop leaves the prefix before `level` untouched and emits exactly the completions of that prefix extended by `values[i]`, using later positions only (at the last level, the one copy of the completed combination) |
| Combinatorics.IterateCombinations | StrategyHelper.cs:402-406 | the emitted sequence equals all k-element combinations of the values in lexicographic order of positions |
| Combinatorics.IndicesCount | StrategyHelper.cs:402-429 | exactly C(n, k) combinations are emitted |
| Combinatorics.IndicesOrdered | StrategyHelper.cs:408-429 | emitted position tuples are strictly increasing lexicographically, so none repeats |
| Combinatorics.IndicesComplete | StrategyHelper.cs:408-429 | every strictly increasing k-tuple of positions is emitted |
| Combinatorics.CombinationsComplete | StrategyHelper.cs:402-406 | every choice of k values at increasing positions appears among the emitted combinations |
| Combinatorics.IndicesEmpty | StrategyHelper.cs:412-428 | nothing is emitted when fewer than k values remain |
| Singles.SetValueToSolvedCell | StrategyHelper.cs:33-54 | the outcome is the solved-cell step on the range: place the first sole candidate and erase it from the cell's block, row and column peers within the range |
| Singles.SolvedCellFound | StrategyHelper.cs:33-54 | when some cell has exactly one candidate, the step succeeds, the first such cell gets that value and no candidates, and every peer in the range loses that value |
| Singles.SolvedCellNotFound | StrategyHelper.cs:33-54 | when no cell has exactly one candidate, the step fails and the grid is unchanged |
| Singles.ErasePeersMeaning | StrategyHelper.cs:43-50 | erasing from peers removes the value from exactly the range's cells sharing block, row or column with the placed cell |
| Singles.HiddenSingles | StrategyHelper.cs:57-77 | the outcome is the hidden-single step on the range |
| Singles.HiddenSinglesMeaning | StrategyHelper.cs:57-77 | on success the least digit present in exactly one empty cell becomes that cell's only candidate; on failure the grid is unchanged and no candidate digit occurs in exactly one empty cell |
| Subsets.NakedStrategy | StrategyHelper.cs:305-328 | the outcome is the naked-subset step on the range for the given depth |
| Subsets.NakedPairsTriples | StrategyHelper.cs:80-85 | naked subsets up to size 3 |
| Subsets.NakedQuards | StrategyHelper.cs:96-101 | naked subsets up to size 4 |
| Subsets.ContainedInMeaning | StrategyHelper.cs:313-314 | the contained cells are exactly the other empty cells whose candidates are a subset of the seed cell's |
| Subsets.NakedMeaning | StrategyHelper.cs:305-328 | on success the first seed cell with 2..depth candidates and exactly count-1 contained cells is chosen and its candidates are removed from every other non-contained empty cell, strictly lowering the total; on failure the grid is unchanged, and removing at the first qualifying seed, if there is one, would change nothing |
| Subsets.HiddenStrategy | StrategyHelper.cs:330-357 | the outcome is the hidden-subset step on the range for the given depth |
| Subsets.HiddenPairsTriples | StrategyHelper.cs:88-93 | hidden subsets up to size 3 |
| Subsets.HiddenQuards | StrategyHelper.cs:104-109 | hidden subsets up to size 4 |
| Subsets.HiddenMeaning | StrategyHelper.cs:330-357 | over the empty cells and their candidates in ascending order: on success the chosen combination is the first hit (smallest size m in 2..depth, then first in enumeration order) held by exactly m empty cells, and those cells keep only its values, strictly lowering the total; on failure the grid is unchanged and keeping the first hit, if any, would change nothing |
| Subsets.HiddenNoneComplete | StrategyHelper.cs:330-357 | when the search finds no hit, no choice of 2..depth candidates at increasing positions is held by exactly that many empty cells |
| Subsets.HiddenChosen | StrategyHelper.cs:336-352 | a hit found by the search over sizes below n is the first one: no smaller size has a hit and no earlier combination of its size is one |
| Intersections.PointingPairs | StrategyHelper.cs:112-147 | the outcome is the pointing step on the block range |
| Intersections.PointingMeaning | StrategyHelper.cs:112-147 | for the least candidate v whose block cells lie in one row or one column (the scan stops there whether or not v occurs elsewhere on that line), v is removed from the cells of that line outside the block; the step succeeds iff that removed something, and otherwise the grid is unchanged |
| Intersections.BoxLineReduction | StrategyHelper.cs:150-221 | the outcome is the box/line reduction step on the block range |
| Intersections.BoxLineMeaning | StrategyHelper.cs:150-221 | on success, for the least candidate v such that exactly one row or column through the block is a hit (its block cells hold v and no cell of that line outside the block does) and some of the block's cells off that line hold v, v is removed from those off-line block cells and the total drops; on failure the grid is unchanged, and removing at the first pick, if there is one, would change nothing |
| Intersections.XWing | StrategyHelper.cs:224-296 | the outcome is the X-Wing step on the line range |
| Intersections.WingAtMeaning | StrategyHelper.cs:244-262 | a parallel line yields a wing exactly when its cells with the candidate are two cells aligned with the base pair |
| Intersections.LastWingSome | StrategyHelper.cs:244-262 | when some parallel line is a wing, the scan keeps the wing of the last such line: no later line is a wing |
| Intersections.XWingMeaning | StrategyHelper.cs:224-296 | on success the rectangle's value is removed from the other cells of the two crossing lines, taking the last wing line found for the least digit that has one; on failure the grid is unchanged, and removing at the first pick, if there is one, would change nothing |
| Solver.ClearProbableValue | Sudoku.cs:147-153 | every cell of the range loses the value, and nothing else changes |
| Solver.SetProbableValue | Sudoku.cs:123-145 | the outcome is the solved-cell step over the whole table |
| Solver.SolvedOverAll | Sudoku.cs:123-145 | clearing the value over the cell's block, row and column is the same as erasing it from the cell's peers, so the step agrees with SetValueToSolvedCell on the whole table |
| Solver.SolvedCellShrinks | Sudoku.cs:123-145 | a successful solved-cell step strictly decreases the number of candidates |
| Solver.ResetCandidates | Sudoku.cs:77-88 | empty cells get candidates 1..N and filled cells none; nothing else changes |
| Solver.FilterInitialProbableValues | Sudoku.cs:108-120 | every empty cell of the range loses every value already placed in the range |
| Solver.SetInitialProbabledValues | Sudoku.cs:75-106 | afterwards each empty cell's candidates are the initial candidates and each filled cell has none; values are unchanged |
| Solver.InitialCandidatesMeaning | Sudoku.cs:75-106 | v is an initial candidate of an empty cell iff 1 ≤ v ≤ N and no peer of the cell holds v |
| Solver.FilterUniqueCandidate | Sudoku.cs:194-227 | the outcome is the unique-candidate filter on the range |
| Solver.UniqueMeaning | Sudoku.cs:194-227 | on success the least digit v in 1..N that occurs in exactly one empty cell becomes that cell's only candidate; on failure no digit occurs exactly once and the grid is unchanged |
| Solver.UniqueShrinks | Sudoku.cs:194-227 | once no cell has a single candidate (as the solve loop guarantees before it filters), a successful unique-candidate filter strictly decreases the number of candidates |
| Solver.FilterSameCandidates | Sudoku.cs:229-264 | the outcome is the same-candidates filter on the range |
| Solver.SimilarMeaning | Sudoku.cs:240-247 | the similar cells are exactly the empty cells with the same candidate set as the seed, and the filtered cells are the rest |
| Solver.SameMeaning | Sudoku.cs:229-264 | the first seed (not the last empty cell) whose candidate count equals its number of twins is chosen; the seed's candidates are removed from the empty cells whose candidate set differs from the seed's (the seed's twins keep theirs); success means something was removed; with no such seed the grid is unchanged |
| Solver.SameShrinks | Sudoku.cs:229-264 | a successful same-candidates filter strictly decreases the number of candidates |
| Solver.FilterProbableValues | Sudoku.cs:158-192 | the outcome is the first success among the filters tried on blocks, then rows, then columns, in filter order |
| Solver.FilterStepMeaning | Sudoku.cs:158-192 | the driver fails iff every filter fails on every block, row and column, and then the grid is unchanged |
| Solver.FilterStepSucceeds | Sudoku.cs:158-192 | on success the outcome is that of one filter on one block, row or column, and every earlier filter failed on every block, row and column |
| Solver.FilterStepFirst | Sudoku.cs:158-192 | on success the outcome is one of the driver's attempts (filters in turn, each over blocks, rows and columns in index order), and every attempt before it failed |
| Solver.RoundShrinks | Sudoku.cs:48-70 | one round of the solve loop that succeeds strictly decreases the total number of candidates, so the loop terminates |
| Solver.SolveLoop | Sudoku.cs:48-70 | stages before the loop are kept; each appended stage is the successful round applied to the previous stage; the last stage is one on which a round fails |
| Solver.Sudoku.constructor | Sudoku.cs:12-15 | a new solver has the given block length and no stages |
| Solver.Sudoku.CloneLastTable | Sudoku.cs:267-270 | the clone is a fresh valid table whose grid equals the last stage's |
| Solver.Sudoku.AddStage | Sudoku.cs:272-276 | appends a snapshot of the table as a new stage |
| Solver.Sudoku.Clear | Sudoku.cs:278-281 | removes every stage |
| Solver.Sudoku.Solve | Sudoku.cs:42-71 | keeps the earlier stages, appends the initial-candidates stage, then the stages of the solve loop up to a round that fails |
| Solver.Sudoku.Load | Sudoku.cs:17-40 | after loading a table, the first stage is that table, the second its initial candidates, and the rest the solve loop's stages |

## Left out

- Solver.Sudoku.Load: parsing the tab-separated text rows into cell values is not modelled; Load takes the table the parser would build.
- The Windows Forms user interface (Form1.cs) is not part of this model.
- StrategyHelper.GetStrategies, which lists strategies by reflection over attributes, is not modelled. The solve loop never calls the strategy rules, so no dispatcher over them is modelled either; each rule is a separate method.
- YWing is an empty stub in the source and is not modelled. The other strategy types in the enumeration have no code.
- Table.Clear is private and never called; it is not modelled.
- `HashSet<int>` enumeration order is taken to be ascending wherever a rule's result depends on it. For the candidate union of `Range.GetProbableValuesHashSet` (Range.cs:59-70), .NET's order is that of first appearance across the range's cells. So when several digits qualify, the program may pick a different digit than the model's least one in Singles.HiddenSingles (StrategyHelper.cs:57-77), Subsets.HiddenStrategy (StrategyHelper.cs:330-357), Intersections.PointingPairs (StrategyHelper.cs:112-147), Intersections.BoxLineReduction (StrategyHelper.cs:150-221) and Intersections.XWing (StrategyHelper.cs:224-296). The model proves its properties for the ascending scan only.
- A stage built from a table alone carries no strategy result; the model records `None`, because `StrategyType.None`, which the source's `EmptyResult` names, is not declared in the enumeration.
- `Cell.GetFirstProbableValue` and `Cell.ProbableIsEquals` are called but not defined in the source; they are modelled as "the single candidate" and "equal candidate sets".
- Stages hold grid snapshots (values, candidates, indices, default flag) rather than `Table` objects; nothing in the solver mutates a table after it was staged.
- Intersections.PointingPairs, Intersections.BoxLineReduction: require a non-empty range, because the source reads `range[0]` for the block index.
- Combinatorics.IterateCombinations: requires a combination length of at least 1; for length 0 the source throws at `combination[level]` on an empty array, and every call site passes at least 2.
- 32-bit integer overflow is not modelled; all counts and indices stay far below it for any table that fits in memory.
- The `StrategyResult` object passed to each rule is replaced by the rule's boolean success result; the rules only ever set its success flag.
