# Diagonal Sudoku solver: a verified model

This project models `solution.py`, a constraint-propagation Sudoku solver
that also handles the diagonal variant. It covers:

- the board topology: `cross`, `boxes`, the 29 units, `units` and `peers`;
- the assignment primitive `assign_value` and its global log `assignments`;
- the three propagation rules `eliminate`, `only_choice` and `naked_twins`;
- the fixed-point driver `reduce_puzzle`;
- the depth-first `search`;
- the parser `grid_values` and the entry point `solve`.

Representation:

- A cell is an index `0..80` in row-major order. Cell `9 * r + c` is the box
  named by row letter `r` and column digit `c` (`A1` is 0, `I9` is 80).
- A cell's candidates stay a string of digits (`Cand`).
- A board is a sequence of 81 such strings.
- `State(values, log)` pairs a board with the assignment log.

The program is modelled twice, and the two are proved equal:

- **As functions on `State` values.** Each loop of the source becomes a
  prefix-recursive function (`EliminateBoxes(s, solved, k)` is the outer loop
  of `eliminate` after `k` turns). Every property is proved about these
  functions:
  - no rule adds a candidate or drops a log entry;
  - the exact effect of each rule;
  - no rule loses a completed grid that was still possible;
  - `reduce_puzzle` terminates, and `False` means exactly that a box is empty;
  - `search` terminates, is sound and is complete.
- **As imperative code.** The class `Sudoku.Solver` holds `assignments` as a
  field and works on an `array<Cand>` changed in place by nested loops, as the
  program does. Each method is proved to leave exactly the state that the
  function of the same name computes.

Modules:

| Module | File | What it covers |
|---|---|---|
| `Topology` | topology.dfy | cells, names, units, peers |
| `Boards` | board.dfy | candidates, boards, `assign_value` |
| `Parser` | grid_values.dfy | `grid_values` |
| `EliminationRule` | eliminate.dfy | `eliminate` |
| `OnlyChoiceRule` | only_choice.dfy | `only_choice` |
| `NakedTwinsRule` | naked_twins.dfy | `naked_twins` |
| `Reduction` | reduce.dfy | `reduce_puzzle` |
| `Solutions` | solutions.dfy | every rule keeps every completed grid that was still possible |
| `Searching` | search.dfy | `search` and `solve` |
| `Sudoku` | solver.dfy | the imperative solver class |

Two points where the model follows the code rather than a natural reading:

- `eliminate` lists the solved boxes once, before its loop. A box that
  becomes solved during a pass is therefore only processed by a later call.
  The model keeps that snapshot and claims no idempotence.
- `peers[box]` is a Python set, so its iteration order depends on hashing.
  The model iterates peers in ascending cell order. The board the peer loop
  leaves does not depend on the order: `EliminateFromPeersEffect` describes
  it through the set of visited peers alone. The order does decide which
  intermediate boards are logged. With `A1 = 1`, `A2 = 12` and `A3 = 13`,
  visiting `A2` first logs a board where `A3` is still `13`, while visiting
  `A3` first logs one where `A3` is already `3`.

## Model

| member | source | states |
|---|---|---|
| Topology.CrossAt | solution.py:49-51 | entry `i * len(B) + j` of `cross(A, B)` is `A[i] + B[j]`, and the product has `len(A) * len(B)` entries |
| Topology.BoxesName | solution.py:55 | `boxes` has 81 names; the name of cell `c` is row letter `c / 9` followed by column digit `c % 9` |
| Topology.NameOrder | solution.py:55 | cell order is exactly string order on box names, so ties in `min` break the same way on either |
| Topology.RowUnitNames | solution.py:56 | row unit `k`, written as names, is `cross(rows[k], cols)` |
| Topology.ColumnUnitNames | solution.py:57 | column unit `k`, written as names, is `cross(rows, cols[k])` |
| Topology.SquareUnitNames | solution.py:58 | square unit `k`, written as names, is `cross` of the `k / 3`-th row triple and the `k % 3`-th column triple |
| Topology.DiagUnitNames | solution.py:59 | the k-th cell of the main diagonal is `rows[k] + cols[k]` |
| Topology.AntiDiagUnitNames | solution.py:59 | the k-th cell of the anti-diagonal is `rows[k] + cols[8 - k]` |
| Topology.UnitListShape | solution.py:60 | `unitlist` holds 29 units, each of 9 distinct cells |
| Topology.UnitsContaining | solution.py:61 | `units[s]` holds exactly the units of `unitlist` that contain `s` |
| Topology.Flatten | solution.py:62 | `sum(units[s], [])` holds exactly the cells of those units |
| Topology.PeerSetMeaning | solution.py:61-62 | `c` is in `peers[s]` exactly when `c != s` and some unit holds both |
| Topology.PeerSet | solution.py:62 | a cell is never its own peer |
| Topology.PeersSymmetric | solution.py:62 | `b` is a peer of `a` exactly when `a` is a peer of `b` |
| Topology.UnitHas | solution.py:56-60 | unit `k` holds cell `a` exactly when `a` has the unit's row, column, square or diagonal |
| Topology.IsPeerMeaning | solution.py:56-62 | the arithmetic peer test (same row, column, square or diagonal, and not the cell itself) agrees with `peers` in both directions |
| Topology.UnitMatesArePeers | solution.py:60-62 | two different cells of one unit are peers |
| Topology.PeerList | solution.py:62 | the list of peers holds exactly the cells passing the peer test |
| Boards.Assign | solution.py:4-16 | unchanged value: board and log unchanged; otherwise only `box` changes, and the log gains one snapshot of the new board exactly when the new value has one character; a narrowing write only shrinks boxes and only grows the log |
| Sudoku.Solver.AssignValue | solution.py:4-16 | the array and the `assignments` field end exactly as `Assign` says |
| Sudoku.Solver.constructor | solution.py:1 | the log starts empty |
| Boards.RemoveDigit | solution.py:117 | `replace(d, '')` keeps exactly the characters other than `d`, and is shorter exactly when `d` was present |
| Boards.RemoveAll | solution.py:43-46 | removing each digit of `ds` in turn keeps exactly the characters not in `ds` |
| Boards.SolvedCountMonotone | solution.py:151-155 | when no box grew and none is empty, the solved count does not drop and stays at most 81 |
| Boards.SolvedCountFull | solution.py:151-155 | the solved count is 81 exactly when every box holds one character |
| Boards.Undecided | solution.py:176 | `undecided_boxes` holds exactly the boxes with more than one candidate |
| Boards.NoUndecidedMeansSolved | solution.py:176-179 | with no empty box and no undecided box, every box is solved |
| Parser.CharCells | solution.py:77-81 | a grid character yields one cell exactly when it is `.` or a digit |
| Parser.GridValues | solution.py:64-83 | the board exists exactly when the grid yields 81 cells, and each cell is then a given digit or all nine digits |
| Parser.GridCellsIgnoresOthers | solution.py:77-81 | other characters are skipped: the grid reads as its kept characters do, one cell per kept character |
| Parser.GridValuesRoundTrip | solution.py:64-83 | `grid_values` and writing a board back as a grid are inverse, in both directions |
| EliminationRule.EliminateFromPeersEffect | solution.py:116-117 | after the first `j` peers, exactly those peers have lost the digit and every other box is unchanged |
| EliminationRule.EliminateFromPeersEvolves | solution.py:116-117 | the peer loop never adds a candidate and never drops a log entry |
| EliminationRule.EliminateBoxEffect | solution.py:113-117 | a box still holding one digit removes it from every peer and from no other box |
| EliminationRule.EliminateEvolves | solution.py:100-118 | `eliminate` never adds a candidate and never drops a log entry |
| EliminationRule.EliminateBoxClash | solution.py:114-117 | if a box and one of its peers can at most be the same digit, processing that box empties a box |
| EliminationRule.EliminateIgnoresLog | solution.py:100-118 | the board `eliminate` leaves depends on the board it starts from, never on the log |
| EliminationRule.EliminateExposesClash | solution.py:112-117 | on a fully determined board, two peers with the same digit make `eliminate` empty a box |
| Sudoku.Solver.EliminateFromPeers | solution.py:116-117 | the in-place peer loop leaves exactly `EliminateFromPeers` of the old state |
| Sudoku.Solver.EliminateBox | solution.py:113-117 | one turn of the outer loop in place: a box still holding one digit has it removed from its peers, exactly as `EliminateBox` says |
| Sudoku.Solver.Eliminate | solution.py:100-118 | the in-place `eliminate` leaves exactly `Eliminate` of the old state |
| OnlyChoiceRule.Holders | solution.py:134 | `boxes_in_unit` holds exactly the boxes of the unit offering the digit, without repeats |
| OnlyChoiceRule.HoldersSingle | solution.py:134-135 | `boxes_in_unit` has length 1 exactly when a single box of the unit offers the digit |
| OnlyChoiceRule.OnlyChoiceStepEffect | solution.py:133-136 | when one box alone offers the digit, that box becomes the digit and nothing else changes; otherwise nothing changes |
| OnlyChoiceRule.OnlyChoiceEvolves | solution.py:120-137 | `only_choice` never adds a candidate and never drops a log entry |
| OnlyChoiceRule.OnlyChoiceIgnoresLog | solution.py:120-137 | the board `only_choice` leaves depends on the board it starts from, never on the log |
| Sudoku.Solver.OnlyChoiceDigit | solution.py:134-136 | one turn of the digit loop in place leaves exactly `OnlyChoiceStep` of the old state |
| Sudoku.Solver.OnlyChoiceUnit | solution.py:133-136 | the in-place digit loop leaves exactly `OnlyChoiceDigits` of the old state |
| Sudoku.Solver.OnlyChoice | solution.py:120-137 | the in-place `only_choice` leaves exactly `OnlyChoice` of the old state |
| NakedTwinsRule.BuildTableIndexes | solution.py:36-39 | each key of `digits_to_boxes` lists, in unit order, exactly the boxes holding that string |
| NakedTwinsRule.RemoveFromOthersEffect | solution.py:44-46 | after `unit[..j]`, exactly the boxes there outside the group have lost the digit |
| NakedTwinsRule.RemoveFromOthersEvolves | solution.py:44-46 | that loop never adds a candidate and never drops a log entry |
| NakedTwinsRule.RemoveGroupDigitsEffect | solution.py:43-46 | after the first `m` digits, the boxes of the unit outside the group have lost exactly those digits and no other box changed |
| NakedTwinsRule.NakedTwinsEntryEffect | solution.py:41-46 | a naked group (n > 1 boxes with the same n digits) strips its digits from the other boxes of the unit only; its own boxes are untouched; any other entry changes nothing |
| NakedTwinsRule.NakedTwinsEvolves | solution.py:18-47 | `naked_twins` never adds a candidate and never drops a log entry |
| NakedTwinsRule.NakedTwinsIgnoresLog | solution.py:18-47 | the board `naked_twins` leaves depends on the board it starts from, never on the log |
| Sudoku.Solver.RemoveFromOthers | solution.py:44-46 | the in-place box loop leaves exactly `RemoveFromOthers` of the old state |
| Sudoku.Solver.RemoveNakedGroup | solution.py:42-46 | one entry of the `items()` loop in place leaves exactly `NakedTwinsEntry` of the old state |
| Sudoku.Solver.RemoveNakedGroups | solution.py:41-46 | the in-place `items()` loop leaves exactly `NakedTwinsEntries` of the old state |
| Sudoku.Solver.NakedTwinsUnit | solution.py:35-46 | building the table and processing it in place leaves exactly `NakedTwinsUnit` of the old state |
| Sudoku.Solver.NakedTwins | solution.py:18-47 | the in-place `naked_twins` leaves exactly `NakedTwins` of the old state |
| Solutions.Pigeonhole | solution.py:21-26 | n boxes of one unit restricted to n digits hold, in any completed grid, every one of those digits |
| Solutions.UnitDiffers | solution.py:60-62 | a completed grid has 9 different digits in each unit |
| Solutions.EliminateKeeps | solution.py:100-118 | every completed grid still possible before `eliminate` is still possible after it |
| Solutions.OnlyChoiceKeeps | solution.py:120-137 | every completed grid still possible before `only_choice` is still possible after it |
| Solutions.NakedTwinsKeeps | solution.py:18-47 | every completed grid still possible before `naked_twins` is still possible after it |
| Solutions.ReduceKeeps | solution.py:139-159 | when a completed grid is still possible, `reduce_puzzle` does not fail and keeps it possible |
| Reduction.RoundEvolves | solution.py:152-154 | a round never adds a candidate and never drops a log entry |
| Reduction.ReducePuzzle | solution.py:139-159 | the result is False exactly when a box is empty; the board only shrank; termination is by 81 minus the solved count |
| Reduction.ReducePuzzleStalls | solution.py:150-156 | a successful result is the board after a full round that left the solved count unchanged |
| Reduction.ReducePuzzleIgnoresLog | solution.py:139-159 | the board and the verdict of `reduce_puzzle` depend on the board it starts from, never on the log |
| Reduction.SolvedBoardFixed | solution.py:150-158 | a fully determined board that shrinks without emptying a box does not change |
| Reduction.RoundExposesClash | solution.py:152-158 | on a fully determined board with two equal peers, a round empties a box |
| Reduction.ReduceSolvedNoClash | solution.py:157-159 | a successful result that is fully determined has no two equal peers |
| Sudoku.Solver.ReducePuzzle | solution.py:139-159 | the in-place `while not stalled` loop leaves exactly the board and flag of `ReducePuzzle` |
| Searching.BeforeMeaning | solution.py:180 | `(len, box)` pairs compare by length, then by cell order |
| Searching.MinBoxLeast | solution.py:180 | the branching box comes before every other undecided box: fewest candidates, then smallest name |
| Searching.SearchIgnoresLog | solution.py:4-16 | the outcome of `search`, and the board it returns, depend on the input board alone: `assignments` is written, never read |
| Searching.TryDigitsFirst | solution.py:183-188 | the digit loop tries the digits of the branching box in order: a solved result is the outcome of some branch `j` that succeeded after every earlier branch failed, and a falsy result means every branch failed |
| Searching.SearchSound | solution.py:161-188 | a solved result has one candidate per box, no two equal peers, and only narrows the input; the log only grows |
| Searching.SearchComplete | solution.py:161-188 | if a completed grid is still possible on the input, search succeeds |
| Searching.SearchCorrect | solution.py:161-188 | on a board of digits, search succeeds exactly when some completed grid is still possible, and then returns a completed grid that is |
| Searching.Solve | solution.py:190-201 | `solve` yields a result exactly when the grid parses |
| Searching.SolveCorrect | solution.py:190-201 | `solve` succeeds exactly when some completed grid keeps every given digit, and what it returns is such a grid |
| Sudoku.CopyBoard | solution.py:184 | `values.copy()` is a fresh table with the same boxes |
| Sudoku.Solver.TryDigit | solution.py:184-186 | copying, fixing the digit and searching leaves exactly the log and result of `Search` on that branch |
| Sudoku.Solver.TryDigitStep | solution.py:183-188 | after one digit, either the branch succeeded and is the loop's result, or the rest of the loop still yields it |
| Sudoku.Solver.TryDigits | solution.py:183-188 | the digit loop with its early return leaves exactly the log and result of `TryDigits` on the log it started from |
| Sudoku.Solver.Search | solution.py:161-188 | the in-place `search` leaves exactly the log and result of `Search`, and its own board holds what `reduce_puzzle` made of it |
| Sudoku.Solver.Solve | solution.py:190-201 | `solve` fails exactly when the grid does not parse, and then leaves the log untouched; otherwise it leaves the log and result of `Solve` |

## Left out

- `display` (solution.py:85-98): it only prints.
- The `__main__` block (solution.py:203-214): it calls the external `visualize` module inside a blanket `try`; that module is not part of this model.
- Aliasing. `search` copies the board at each branch (`values.copy()`) and works on the copy, so the model passes boards as values. Each recursive call gets its own fresh array (`CopyBoard`). No two live references to one board are modelled.
- Python set order for `peers[box]`: the model uses ascending cell order. The board that results is the same for every order, but which intermediate boards the log records depends on the order.
- Falsy results: `False` from a failed reduction and the implicit `None` after the digit loop are one `Unsolvable` outcome.
- The `assert len(values) == 81` of `grid_values` (solution.py:82): a grid that fails it yields `None` instead of raising.
- `dict(zip(boxes, values))`: the model indexes the board by cell rather than by name. `Topology.BoxesName` ties cell `c` to the c-th entry of `boxes`.
- The unused `solved_values` list of `reduce_puzzle` (solution.py:148) has no counterpart.
- Uniqueness: there is no claim that a solution is unique. `search` returns the first branch that succeeds.
- Sudoku.Solver.EliminateFromPeers: it takes the peer list in ascending cell order (`PeerList`) rather than in Python's set order.
