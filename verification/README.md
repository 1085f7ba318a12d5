# Sudoku solving engine, modelled in Dafny

This project models the solving engine of a small Python Sudoku solver (`main.py`).
A puzzle is a 9×9 grid of integers. A cell holding 1..9 is filled. Any other value, normally 0, marks an empty cell.
Solving works in two stages:

- **Propagation.** Repeated passes, each computing one candidate table for the whole grid. A pass emits a step for every empty cell that has a single candidate (a forced cell). It also emits a step for a cell with several candidates when one of them is a hidden single. All steps of a pass are applied together. Passes continue until one finds nothing.
- **Backtracking.** If the grid is still not valid, a chronological search runs. It takes the first empty cell in row-major order, tries its legal digits, and resets the cell to 0 when every digit fails.

The grid is a value (`seq<seq<int>>`), not a mutable array. Each operation that mutates the grid in place in `main.py` returns the grid it leaves behind.

Modules, one per component:

- `Board` (`board.dfy`): digits, the 9×9 shape, rows, columns, the boxes ("fields") and their geometry, empty cells.
- `Candidates` (`candidates.dfy`): the legal digits of a cell and the candidate table.
- `Propagation` (`propagation.dfy`): `can_be_placed_elsewhere`, the per-cell step, `find_next_steps`, `perform_steps`, and what one pass does to the grid.
- `Validation` (`validation.dfy`): `is_valid`, and its equivalence with the cell-by-cell Sudoku rule.
- `Search` (`search.dfy`): `next_step` and `try_combinations`.
- `Solver` (`solver.dfy`): `solve`.
- `Parsing` (`parsing.dfy`): the 81-character format and `equality`.

The scans of `find_next_steps`, `next_step` and `equality` run over cells in row-major order, like the nested loops of `main.py`. `find_next_steps` first computes each cell's result (`Propagation.CellSteps`) and then collects them (`Propagation.Collect`).

The hidden-single test follows the code literally. `can_be_placed_elsewhere` returns `column and row and box`, and each operand says whether another cell of that region lists the digit. So a digit is a hidden single when **at least one** of the three regions has no other cell listing it, not only when all three lack one. `Propagation.CanBePlacedElsewhere` states the rule in both polarities.

On failure, `try_combinations` resets every cell it tried to 0 before returning. The model proves that a grid whose values are 0..9 comes back unchanged after a failed search.

`Parsing.Compress` is not part of `main.py`. It writes a grid back in the 81-character form and exists only so that the model can state the round trip with `load`.

## Model

| member | source | states |
|---|---|---|
| Board.Fields | main.py:7-17 | There are nine fields of 3×3 entries. Entry (a, c) of field k is cell ((k/3)*3 + a, (k%3)*3 + c). |
| Board.Row | main.py:31-32 | Row i has the entries of cell (i, c) for each c. |
| Board.Column | main.py:35-36 | Column j has nine entries, and entry r is cell (r, j). |
| Board.Transpose | main.py:179 | The transposed grid is 9×9 and its cell (j, i) is cell (i, j) of the grid. |
| Board.TransposeRows | main.py:179 | Row j of the transpose is column j, and transposing twice gives the grid back. |
| Board.Field | main.py:7-28 | The flattened field of (i, j) has nine entries. Entry k is cell ((i/3)*3 + k/3, (j/3)*3 + k%3). Entry (i%3)*3 + j%3 is cell (i, j) itself. |
| Candidates.PossibleValues | main.py:39-47 | The result is a subset of 1..9. d is in it iff d is a digit that occurs in none of row i, column j and the box of (i, j). |
| Candidates.Possibilities | main.py:50-62 | The table is 9×9 and holds only subsets of 1..9. A filled cell gets the empty set. An empty cell gets exactly the digits missing from its row, column and box. |
| Candidates.SameDigitsPossibilities | main.py:50-62 | Two grids with the same digits in the same cells get the same candidate table. |
| Propagation.OtherContains | main.py:69-73 | The scan returns true iff some position other than index holds a set containing item. |
| Propagation.CanBePlacedElsewhere | main.py:65-84 | True iff column j, row i and the box each have another cell listing nr. False iff at least one of them has none: the hidden-single condition. |
| Propagation.FirstHidden | main.py:100-103 | Returns the least candidate at or above d that meets the hidden-single condition. If it returns none, no candidate from d up meets it. |
| Propagation.CellStep | main.py:95-103 | A cell with one candidate yields exactly that candidate. A cell with several candidates yields the least candidate meeting the hidden-single condition. If no candidate meets it, the cell yields nothing. Any digit yielded is a candidate. |
| Propagation.FindNextSteps | main.py:87-104 | Every step names an empty cell and one of that cell's legal digits, and no cell is named twice. Each step carries what CellStep yields for its cell. Every cell for which CellStep yields a digit gets a step. |
| Propagation.PerformSteps | main.py:107-113 | Cells that no step names keep their value. When the steps name distinct cells, each named cell ends up holding its step's digit. |
| Propagation.PassFillsEmptyCells | main.py:122-127 | After one pass, the empty cells are the old ones minus the cells the steps named. Givens are kept, and 0..9 values stay 0..9. A pass with steps strictly lowers the number of empty cells, which is the measure on which the loop of solve terminates. |
| Propagation.Propagate | main.py:122-127 | The grid where the passes of solve stop. It keeps every given of the input, and 0..9 values stay 0..9. |
| Propagation.PropagateStops | main.py:122-127 | A pass over the grid where propagation stops finds no step: it is a fixpoint of the loop. |
| Propagation.SameDigitsSameSteps | main.py:87-104 | Two grids with the same digits in the same cells get the same steps: a pass looks only at where the digits are, not at what the empty cells hold. |
| Propagation.FilledGridHasNoSteps | main.py:87-104 | A pass over a grid with no empty cell emits no step. |
| Validation.IsValid | main.py:170-186 | A valid grid holds a digit in every cell. |
| Validation.ValidIffSolved | main.py:170-186 | is_valid holds iff every cell holds a digit and no two distinct cells sharing a row, a column or a box hold the same digit. |
| Validation.PermutationOfDigits | main.py:174-185 | A nine-entry row, column or field has value set {1..9} iff it lists the digits with no repeat. |
| Validation.IncompleteIsInvalid | main.py:170-186 | A grid with a cell not holding 1..9, such as a 0, is never valid. |
| Search.NextEmptyFrom | main.py:147-152 | The scan from (i, j) returns the first cell not holding a digit, and every cell scanned before it holds one. If it returns none, every cell from (i, j) on holds a digit. |
| Search.NextStep | main.py:147-152 | Returns none iff the grid has no empty cell. Otherwise it returns an empty cell such that every earlier cell in row-major order is filled. |
| Search.TryCombinations | main.py:154-167 | Reports success iff the grid it leaves is valid, and iff some valid grid keeps every digit of the input: the search is complete. A success keeps every given. A failure changes only cells that held no digit, and only to 0. A failure on a grid of 0..9 values leaves the grid exactly as it was. |
| Solver.RunPropagation | main.py:122-127 | The propagation loop of solve stops at exactly Propagate(g). |
| Solver.FailureKeepsStepless | main.py:137-138 | A failed search on a grid where no pass applies leaves a grid where no pass applies either, and keeps its givens. |
| Solver.Solve | main.py:116-138 | Never overwrites a given, either of the input or of the propagated grid. Leaves an already valid grid unchanged, and stops at the propagated grid when that is valid. The final grid is valid iff some valid grid keeps every digit of the propagated grid. Otherwise it differs from the propagated grid only by resets to 0, and no propagation pass applies to it; on a grid of 0..9 values it is the propagated grid itself. Keeps 0..9 values in 0..9. |
| Parsing.ConvertStringToArray | main.py:224-235 | Returns floor(length/9) rows, and row k is characters 9k..9k+8. A trailing partial group is dropped. |
| Parsing.CellValue | main.py:193-200 | A character maps to 0..9. The result is non-zero iff the character is '1'..'9', and then it is the digit the character shows. |
| Parsing.ParseSudoku | main.py:189-201 | The shape is kept, and every entry becomes 0..9. '1'..'9' become the digit they show; any other character becomes 0. |
| Parsing.LoadShape | main.py:224-235 | A string loads to a 9×9 grid iff it has 81 to 89 characters. Then cell (i, j) is the value of character 9i + j, in 0..9. |
| Parsing.LoadCompress | main.py:189-201 | Writing a 0..9 grid in the 81-character form (Compress) and loading it gives back the same grid. |
| Parsing.LoadIsStable | main.py:241 | For an 81-character string, load, write back and load again gives the first grid. |
| Parsing.Equality | main.py:213-221 | Returns true iff the two grids agree on every cell (i, j) with 0 <= i, j < 9. On 9×9 grids this is equality. |

## Left out

- `print_sudoku` (main.py:204-210), the `outputs` printing branches and `step_counter` of `solve`: console output and diagnostics only.
- The `__main__` driver and its hard-coded puzzle. The puzzle is not solved inside the model, so the concrete solution of that puzzle is not stated.
- The `flatten=False` branch of `get_field`: no caller uses it.
- The `type(set_curr) == set` test in `other_contains` and the `type(current) == set` test in `find_next_steps`: every table entry is a set, so both tests always pass.
- Python's set iteration order. The model fixes it as ascending digit order, both for the hidden-single scan and for the digits tried by the search. This is why candidate tables are required to hold subsets of 1..9, which every table built by `get_possibilities` does.
- `brute_force` itself is not a separate member. It only defines `next_step` and returns `try_combinations(sudoku)`, which are `Search.NextStep` and `Search.TryCombinations`. `next_step` also returns the cell's legal digits; the model computes them with `Candidates.PossibleValues` at the call site.
- Negative indices, ragged lists and grids other than 9×9: operations on a grid require nine rows of nine entries. `Parsing.Equality` requires only that cells 0..8 × 0..8 exist. Parsing works on any string.
- Solver.Solve: does not state that propagation keeps every solution. The model proves the search complete on the grid propagation leaves, but not that propagation never fills a cell with a digit that no solution has there; `main.py` does not promise it either, and `solve` discards the result of `brute_force`.
