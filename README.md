# Eight queens engine

A Dafny model of the `EightQueens` engine: an 8 x 8 grid of 0/1 marks plus
the list of queen locations `{x, y}`, where `x` is the first grid index and
`y` the second. The model covers:

- resetting the board;
- placing eight queens on eight distinct cells at random;
- counting the unordered attacking pairs;
- two solvers: random re-placement with a budget of 1000 attempts, and hill
  climbing with random restarts and a shared budget of 1000 iterations. A
  hill-climbing move changes one queen's `x` and keeps its `y`.

Queens may share an `x` or a `y`; that case is scored as a conflict and is
not rejected.

The model has three modules:

- `Queens` (`queens.dfy`) holds:
  - locations;
  - the attack relation;
  - the pair count `PairCount`: a pure recursive function, proved equal to
    the number of attacking index pairs `i < j`;
  - permutation invariance, the bound n(n-1)/2 and concrete examples.
- `Search` (`search.dfy`) holds:
  - the candidate moves of hill climbing, in visiting order;
  - the selection rule `IsBestMove`: the first candidate with the minimum
    count, taken only when it is below the current count;
  - the record of a run, `Step` and `Leads`.
- `Engine` (`engine.dfy`) holds the class `EightQueens`. Its fields are an
  `array2<int>` board and a `seq<Loc>` of locations. Each method is written
  the way the JavaScript method updates state, loops and all.

Random draws (`Math.random`) are nondeterministic choices. The placer picks
any unmarked cell with `:|`, and every contract holds for every choice. A
hill-climbing run returns, as ghost outputs:

- `initial`, the first placement;
- `trace`, one `Step` per iteration. Each step is either the selected move
  or a restart that happens because no move lowers the count.

The two `for` loops of the hill-climbing search (source lines 133-157)
become `FindBestMove`, with its inner loop in `ScanQueen`. The trial
apply/score/revert of one candidate (lines 140-155) becomes `TrialMove`.
Applying the move (lines 159-165) becomes `ApplyMove`, and one pass
through the `while` body becomes `ClimbStep`. These methods perform the
same writes in the same order as the source and keep the same
comparisons. The only difference is that the comparison at lines 147-150
runs after the revert. That comparison reads only `attacks`, `bestAttacks`,
`queenIndex`, `newRow` and `originalPos.y`, none of which the revert
changes, so the order cannot change the result.

The board and the location list agree after placement. A trial move
writes 1 at the target cell and then writes 0 there to revert. When
another queen already sits on that cell, its mark is erased; when the move
is applied, two queens can end up listed on one cell. The model keeps both
behaviours. It proves that the locations are restored exactly. It proves
board/location agreement only when no two queens share a `y` (`DistinctColumns`);
under that condition a move can never land on an occupied cell.

A trial always restores the location list; it restores the board only
when the target held 0 and the origin 1 (`TrialMove`). In general the
trials of one queen leave its column marked only at its own `x`
(`ScanQueen`), so after the whole search each column holding a queen is
marked only at the `x` of the last queen with that `y`, and the other
columns are unchanged (`ScannedMark`, `FindBestMove`).

## Model

| member | source | states |
|---|---|---|
| Queens.Attacking | src/utils/eightQueens.js:66-77 | Two queens attack exactly when they share `x`, share `y`, share `x - y` or share `x + y`, i.e. equal or opposite steps in both coordinates |
| Queens.AttackingSymmetric | src/utils/eightQueens.js:66-77 | The attack test gives the same answer with its arguments swapped |
| Queens.AttackingReflexive | src/utils/eightQueens.js:66-77 | A queen attacks an identical location |
| Queens.PairCount | src/utils/eightQueens.js:47-63 | The pure pair count: each entry's hits on the entries after it, summed over the list (definition; its meaning is stated by the lemmas below) |
| Queens.PairCountCountsPairs | src/utils/eightQueens.js:47-63 | The pair count equals the number of index pairs `i < j` whose queens attack each other |
| Queens.PairCountIsPairs | src/utils/eightQueens.js:47-63 | For every prefix of `m` entries, the count equals the number of attacking index pairs below `m` |
| Queens.PairCountPermutation | src/utils/eightQueens.js:47-63 | Two location lists with the same multiset get the same count, so the order of the locations does not matter |
| Queens.NoAttackingPair | src/utils/eightQueens.js:90-92 | The count is 0 if and only if no two listed queens attack each other |
| Queens.PairCountBound | src/utils/eightQueens.js:47-63 | Twice the count is at most n(n-1) for n locations |
| Queens.MaxPairs | src/utils/eightQueens.js:47-63 | For eight queens the count is at most 28 |
| Queens.SharedRowCountsEveryPair | src/utils/eightQueens.js:47-68 | When every queen has the same `x`, each of the n(n-1)/2 pairs counts, so the bound is reached |
| Queens.ThreeInARow | src/utils/eightQueens.js:47-68 | Three queens with one `x` count 3, not 1 |
| Queens.SmallExamples | src/utils/eightQueens.js:47-77 | `(0,0),(0,5)` counts 1; `(0,0),(3,3)` counts 1; `(0,0),(1,3)` counts 0 |
| Queens.ClassicSolution | src/utils/eightQueens.js:47-77 | The placement with x = 0..7 at y = 0, 4, 7, 5, 2, 6, 1, 3 counts 0 |
| Queens.FreeCellExists | src/utils/eightQueens.js:27-35 | With fewer than eight queens placed, some cell of the first column is unmarked, so the rejection loop always has a cell it can accept |
| Queens.ColumnOwner | src/utils/eightQueens.js:142-153 | When no two queens share a `y`, every other `x` in a queen's column is free of listed queens |
| Search.MovedKeepsColumns | src/utils/eightQueens.js:143-149 | Moving a queen to another `x` keeps its `y`, so the queens have distinct `y`s after the move exactly when they had them before |
| Search.IsBestMove | src/utils/eightQueens.js:129-157 | The selection rule (definition): no move when no candidate scores below the current count; otherwise a candidate below it, no higher than any candidate and strictly lower than every earlier one |
| Search.MoveExactlyWhenImproving | src/utils/eightQueens.js:147-159 | Under the selection rule there is a move if and only if some candidate scores below the current count |
| Search.BestMoveUnique | src/utils/eightQueens.js:129-157 | At most one result satisfies the selection rule, so the rule fixes the move the search returns |
| Search.BestSoFarStep | src/utils/eightQueens.js:145-150 | Examining one candidate: a count below the best so far makes it the new best; otherwise the best stays, and both keep the rule for the examined prefix |
| Search.BestSoFarSkip | src/utils/eightQueens.js:138 | Skipping the queen's own `x` keeps the rule for the examined prefix |
| Search.BestSoFarComplete | src/utils/eightQueens.js:133-157 | After every queen and every `x` the selection rule holds, with the best count equal to the move's count or to the current count when there is no move |
| Search.LeadsExtend | src/utils/eightQueens.js:128-173 | Appending a climbing step that starts where a run ended gives a run that ends where the step ends |
| Search.LeadsValid | src/utils/eightQueens.js:128-173 | A run is a chain of climbing steps, the first starting at the initial placement and the last ending at the final one |
| Search.ImproveLowers | src/utils/eightQueens.js:159-165 | An applied move strictly lowers the count, changes only the moved queen, changes its `x` and keeps every `y` |
| Search.ImprovingRunDescends | src/utils/eightQueens.js:128-173 | A run of k consecutive applied moves lowers the count by at least k |
| Search.ImprovingRunBound | src/utils/eightQueens.js:128-173 | At most 28 moves are applied between restarts |
| Engine.ScannedMark | src/utils/eightQueens.js:133-157 | The mark of a cell after the trials of the first `k` queens (definition): the last of them in that cell's column decides, otherwise the cell keeps its mark |
| Engine.ScannedMarkUntouched | src/utils/eightQueens.js:133-157 | A column that no scanned queen sits in keeps its marks |
| Engine.ScannedMarkLast | src/utils/eightQueens.js:133-157 | In a column with scanned queens only the `x` of the last of them is marked |
| Engine.ScannedMarkKeeps | src/utils/eightQueens.js:133-157 | With distinct `y`s and a board that agrees with the locations, the scan leaves every cell as it was |
| Engine.EightQueens.MakeBoard | src/utils/eightQueens.js:11-13 | A fresh 8 x 8 board of zeros |
| Engine.EightQueens.constructor | src/utils/eightQueens.js:5-8 | A fresh all-zero board and an empty location list |
| Engine.EightQueens.ResetBoard | src/utils/eightQueens.js:16-19 | Replaces the board with a fresh all-zero one and empties the location list |
| Engine.EightQueens.PlaceQueens | src/utils/eightQueens.js:22-44 | Returns the new location list: eight entries on the board, pairwise distinct cells; the board marks 1 exactly at those cells and 0 elsewhere |
| Engine.EightQueens.CalculateAttackingQueens | src/utils/eightQueens.js:47-63 | The nested loops return the pair count of the current locations, i.e. the number of attacking index pairs `i < j`; the result depends on the location list alone and nothing is modified |
| Engine.EightQueens.GetBoardState | src/utils/eightQueens.js:80-82 | A fresh array, not aliased to the board, with the same cells |
| Engine.EightQueens.GetQueensLocations | src/utils/eightQueens.js:85-87 | The current location list |
| Engine.EightQueens.IsSolved | src/utils/eightQueens.js:90-92 | True exactly when the count is 0, and exactly when no two queens attack each other |
| Engine.EightQueens.GenerateRandomSolution | src/utils/eightQueens.js:95-119 | On success: 1 to 1000 attempts, a count of 0 and no attackingQueens field. On failure: exactly 1000 attempts, a nonzero count and attackingQueens equal to the last placement's count. In both cases a fresh copy of the board, distinct from the board itself, and the live locations of a proper placement |
| Engine.EightQueens.TrialMove | src/utils/eightQueens.js:141-155 | Returns the count with the queen moved to the new `x`. The locations come back exactly. Only the two cells touched change. The board comes back if and only if the target held 0 and the origin held 1. A consistent board stays consistent if and only if no listed queen sits on the target |
| Engine.EightQueens.ScanQueen | src/utils/eightQueens.js:134-156 | Trying one queen at every other `x` in ascending order extends the selection rule over that queen's candidates; the locations are unchanged. Its column ends marked 1 at its own `x` and 0 elsewhere, all other columns unchanged; a consistent board with distinct `y`s stays consistent |
| Engine.EightQueens.FindBestMove | src/utils/eightQueens.js:129-157 | The result satisfies the selection rule: no move when no candidate goes below the current count; otherwise the first candidate with the minimum count, which is below the current count. The best count matches it. The locations are unchanged. Every cell ends as `ScannedMark` over all queens says, so the board is unchanged when it was consistent and no two queens share a `y` |
| Engine.EightQueens.ApplyMove | src/utils/eightQueens.js:159-165 | The moved queen's entry becomes the new position. The new cell is 1, the old cell is 0, all others stay. Consistency and distinct cells are kept when the target was not occupied |
| Engine.EightQueens.ClimbStep | src/utils/eightQueens.js:129-172 | One iteration is a climbing step from the old to the new locations: the selected move if there is one, otherwise a fresh proper placement. The new count is the pair count of the new locations, at most 28. After a move the board is the scanned board with the old cell cleared and the new cell marked. The board agrees with the locations after the step when it did before, whenever no two queens share a `y` |
| Engine.EightQueens.SolveWithHillClimbing | src/utils/eightQueens.js:122-181 | On return iterations is at most 1000, and below 1000 only on success. Success holds exactly when the returned count, the pair count of the returned locations, is 0. Iterations are 0 exactly when the first placement has no attacks. The trace has one step per iteration, restarts included, leading from the first placement to the returned one. The returned board is a fresh copy, distinct from the board itself. The board is consistent when no two queens share a `y` |

## Left out

- `src/Task1.jsx` is not part of this model. It holds React state, the `setTimeout`/`setInterval` countdown, button wiring and `formatTime`: presentation and scheduling, not engine logic.
- `src/components/ChessBoard.jsx` is not part of this model. It only renders the board.
- The uniform distribution of `Math.random`, and the fact that the re-draw loop at lines 32-35 ends with probability 1, are not modelled. A draw is a choice of any unmarked cell, and `FreeCellExists` shows that such a cell always exists.
- The probability that either solver succeeds, and how fast hill climbing converges: only the budget and result contracts are modelled.
- Engine.EightQueens.SolveWithHillClimbing: board/location agreement and distinct cells are stated only under `DistinctColumns`, because the code does not keep them when two queens share a `y` (lines 142, 153 and 162-163).
- Engine.EightQueens.ClimbStep: a restart is recorded as some proper placement, not a particular random one.
- JavaScript numbers are modelled as unbounded integers. Every value stays between 0 and 1000, so nothing overflows.
- The result objects are datatypes. The random solver's optional `attackingQueens` field is an `Option`.
- The location list is a value (`seq<Loc>`). In the source `placeQueens` returns the live array (lines 42-43), which the later element writes (lines 143, 155, 164) change, and `getQueensLocations` (line 86) copies the array but shares its `{x, y}` objects. Aliasing of that array and of those objects is not modelled; no caller keeps or changes them.
- `getBoardState` copies the rows of a nested array. The model copies an `array2<int>` instead, so row objects and whether they are shared are not modelled.
