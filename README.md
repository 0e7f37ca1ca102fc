# Constraint-propagation Sudoku solver, modelled in Dafny

The program is a 9×9 Sudoku solver built from two classes.

- **`Cell`** is one square. It holds its position, its block, its number (0 for empty), an `occupied` flag and a list of candidate digits with its length. It is changed in place in three ways:
  - committing a number (`fill_number`, which raises on failure);
  - replacing the candidate list (`set_candidates`);
  - committing the sole candidate (`confirm_candidates`).
- **`Soduku`** is the grid of 81 cells. It has:
  - row, column and block accessors;
  - the legality test `check_num_valid` and the checked commit `set_cell`;
  - candidate recomputation for one cell or for all;
  - two kinds of deduction rule: the forced single (`solver_elimination`, iterated until it commits nothing) and the hidden single per row, column and block;
  - the driver `solver`, which repeats all four rules until the grid is full or a pass commits nothing.

The project has four modules:

- `Cells` (cells.dfy): the cell as a class over `CellState` values, with the cell invariant.
- `Grid` (grid.dfy): the board as a row-major `seq<CellState>` of 81 cells. It covers unit index arithmetic, legality, the checked commit `Place` and candidate recomputation `Recompute`.
- `Rules` (rules.dfy): the deduction rules and the driver loop as functions on board values, with their lemmas:
  - progress, termination, the cell invariant;
  - which cells a hidden-single rule commits;
  - why the solver stops.
- `SodukuSolver` (soduku.dfy): the `Soduku` class over 81 `Cell` objects, with every operation of the source as a method.

Each method's contract ties the new state to the function in `Grid` or `Rules` that specifies it. For example, `Solver` ensures `Solution(State(), raised) == Solve(old(State()))`. The properties are then proved once about those functions.

A raised `ValueError` is modelled as a result rather than an exception:

- `Cell.FillNumber` and `Soduku.SetCell` return `false`.
- A rule returns `Status.Raised`.
- `Solver` returns `raised == true` with the board as it was when the error occurred. Every earlier change stays in place, as it does in the source.

## Model

| member | source | states |
|---|---|---|
| Cells.Initial | soduku-solver.py:5-11 | a new cell holds the given number, an empty candidate list and count 0, and satisfies the cell invariant (so it is occupied exactly when the number is not 0) |
| Cells.WithCandidates | soduku-solver.py:22-24 | replacing the candidate list leaves number and occupied flag alone and sets the count to the new list's length |
| Cells.Confirm | soduku-solver.py:26-34 | committing the sole candidate happens exactly when the cell is unoccupied with exactly one candidate; it then commits that candidate and empties the list; in every other case (occupied, or 0 or 2+ candidates) the cell is unchanged; the cell invariant is kept |
| Cells.Cell.constructor | soduku-solver.py:5-11 | the cell records its row, column and block (row / 3, column / 3) and starts in the initial state of its number, satisfying the invariant |
| Cells.Cell.FillNumber | soduku-solver.py:13-20 | succeeds exactly when the number is not 0 and the cell is unoccupied; on success the cell is committed, on failure nothing changes; the invariant is kept |
| Cells.Cell.SetCandidates | soduku-solver.py:22-24 | the candidate list is replaced and its count follows; nothing else changes |
| Cells.Cell.ConfirmCandidates | soduku-solver.py:26-34 | new state and result are those of committing the sole candidate; the invariant is kept |
| Grid.Index | soduku-solver.py:89-90 | cell (r, c) of the row-major board is at a position in 0..80 whose quotient by 9 is r and remainder is c |
| Grid.IndexOfCell | soduku-solver.py:120-121 | every position of the flattened board is the cell (i / 9, i % 9) |
| Grid.Coords | soduku-solver.py:195-199 | position p of a row, column or block names a cell inside the grid |
| Grid.BlockCell | soduku-solver.py:195-199 | position p of block (br, bc) is cell (3·br + p / 3, 3·bc + p % 3), and that cell's block is (br, bc) |
| Grid.UnitCellRoundTrip | soduku-solver.py:195-199 | the cell at position p of unit u lies in unit u at position p |
| Grid.UnitCellOnto | soduku-solver.py:78-81 | every cell is the cell at its own position of its own unit, for rows, columns and blocks |
| Grid.BlockSplit | soduku-solver.py:185-186 | block number u in 0..8 is the pair (u / 3, u % 3) of block row and block column, both in 0..2 |
| Grid.Legal | soduku-solver.py:104-111 | definition of the legality test: cell (r, c) unoccupied and n held by no cell of its row, its column or its block (no contract of its own; LegalIffNoPeerHolds, PlaceIffLegal and CheckNumValid state its properties) |
| Grid.LegalIffNoPeerHolds | soduku-solver.py:104-111 | a digit is legal at (r, c) exactly when the cell is unoccupied and no cell of its row, column or block holds it |
| Grid.LegalIsNonzero | soduku-solver.py:104-108 | on a board satisfying the cell invariant, 0 is never legal (the unoccupied cell itself holds 0) |
| Grid.Place | soduku-solver.py:113-117 | a successful checked commit acts on an unoccupied cell and changes only that cell, to the committed number; it keeps the cell invariant |
| Grid.PlaceIffLegal | soduku-solver.py:113-117 | on a well-formed board the checked commit succeeds exactly when the digit is legal there |
| Grid.LegalSameFill | soduku-solver.py:104-111 | legality depends only on the numbers and flags, not on candidate lists |
| Grid.LegalBelow | soduku-solver.py:124-127 | definition of the list the candidate loop has built after trying 1 .. k - 1 (no contract of its own; LegalBelowNext, LegalBelowAscending and LegalBelowMembers state its properties) |
| Grid.LegalDigits | soduku-solver.py:124-127 | definition of the candidate list of (r, c): the loop over 1..9 run to its end (no contract of its own; RecomputeCandidates and LegalCandidates state its properties) |
| Grid.LegalBelowNext | soduku-solver.py:125-127 | scanning digit k appends k to the list exactly when k is legal |
| Grid.LegalBelowAscending | soduku-solver.py:124-127 | the candidate list built so far is strictly ascending digits below the next digit to scan |
| Grid.LegalBelowMembers | soduku-solver.py:124-127 | x is in the list built from digits below k exactly when 1 <= x < k and x is legal |
| Grid.Recomputed | soduku-solver.py:123-128 | recomputing one cell's candidates keeps its number and flag and sets the count to the list's length |
| Grid.RecomputedAt | soduku-solver.py:123-128 | the recomputed cell at (r, c) holds the legal digits of (r, c) as candidates |
| Grid.RecomputedInv | soduku-solver.py:123-128 | recomputing one cell keeps the cell invariant |
| Grid.RecomputeCandidates | soduku-solver.py:123-128 | after recomputation, x is a candidate of cell i exactly when x is a digit legal there; an occupied cell has none; the list is ascending digits |
| Grid.RecomputeCandidatesAt | soduku-solver.py:123-128 | the same three facts stated for cell (r, c) |
| Grid.RecomputeBelowAt | soduku-solver.py:131-133 | recomputing the cells below k in order leaves cell i < k recomputed |
| Grid.Recompute | soduku-solver.py:130-133 | recomputing every cell keeps every number and flag, and every count equals its list's length |
| Grid.RecomputeAt | soduku-solver.py:130-133 | every cell of the recomputed board is that cell recomputed from the original board |
| Grid.RecomputeWellFormed | soduku-solver.py:130-133 | recomputation from a board whose flags match its numbers yields a board satisfying the cell invariant everywhere |
| Grid.RecomputeSameFill | soduku-solver.py:130-133 | the recomputed board depends only on numbers and flags, not on the old candidate lists |
| Grid.Completed | soduku-solver.py:119-121 | definition: no cell holds 0 (no contract of its own; IsCompleted and CompletedIffNoFreeCell state its properties) |
| Grid.FreeCells | soduku-solver.py:119-121 | the set of unoccupied positions, the termination measure of both loops |
| Grid.CompletedIffNoFreeCell | soduku-solver.py:119-121 | on a well-formed board, no cell holds 0 exactly when no cell is unoccupied |
| Grid.PlaceConsistent | soduku-solver.py:113-117 | a checked commit never puts a digit twice into a row, column or block that had no repeats |
| Rules.Sweep | soduku-solver.py:140-143 | the sweep commits each cell's sole candidate independently and never frees or renumbers a committed cell |
| Rules.AnyForced | soduku-solver.py:142-146 | definition: some cell would be committed by the sweep, that is the sweep's change count is positive (no contract of its own; SweepProgress and ConfirmAll state its properties) |
| Rules.SweepProgress | soduku-solver.py:140-147 | a sweep never frees a cell, frees strictly fewer cells exactly when some cell had a sole candidate, and leaves the board unchanged otherwise |
| Rules.Eliminate | soduku-solver.py:135-148 | the forced-single rule never raises, and on a completed board returns it unchanged with result false |
| Rules.EliminateProgress | soduku-solver.py:135-148 | the forced-single rule never frees or renumbers a committed cell; it reports a change exactly when it left fewer unoccupied cells, and when it reports none the numbers are unchanged |
| Rules.EliminateRound | soduku-solver.py:137-147 | one round recomputes candidates and sweeps; with no sole candidate it stops with false, otherwise it repeats on a board with strictly fewer unoccupied cells and reports true |
| Rules.EliminateWellFormed | soduku-solver.py:135-148 | the forced-single rule keeps the cell invariant on every cell |
| Rules.Positions | soduku-solver.py:156-159 | the table entry for d after scanning positions 0 .. k - 1 lists only positions below k |
| Rules.UnitPositions | soduku-solver.py:154-159 | the table entry for d in unit u lists only positions 0..8 of the unit |
| Rules.PositionsExactly | soduku-solver.py:156-159 | the table entry for digit d lists, in ascending order, exactly the positions whose candidate list holds d |
| Rules.SinglePosition | soduku-solver.py:160-161 | the entry for d is the single position p exactly when p is the only position whose list holds d |
| Rules.SingleAt | soduku-solver.py:160-163 | an entry yields one commit of its digit when it holds exactly one position, and none otherwise |
| Rules.SingleFor | soduku-solver.py:160-162 | the commit planned for digit d in unit u: at most one, and only of d |
| Rules.SingleForExactly | soduku-solver.py:160-162 | the commit planned for digit d in a unit is exactly the hidden single of d in that unit |
| Rules.PlannedIsUnique | soduku-solver.py:160-162 | a one-position entry names the only holder of its digit in the unit |
| Rules.HiddenIsSingleFor | soduku-solver.py:160-162 | a hidden single of d in a unit is the one commit planned for d there |
| Rules.UnitPlanFrom | soduku-solver.py:160-163 | the unit's commits for digits d..9 in digit order; every one commits a digit between d and 9 |
| Rules.UnitPlanFromExactly | soduku-solver.py:160-163 | a unit's plan for digits d..9 holds exactly the hidden singles of those digits in that unit |
| Rules.PlanFrom | soduku-solver.py:153-163 | the commits of units u..8 in unit order; every one commits a digit 1..9 |
| Rules.Plan | soduku-solver.py:153-163 | all commits one hidden-single rule plans, units in index order; every one commits a digit 1..9 |
| Rules.PlanFromExactly | soduku-solver.py:153-163 | the plan for units u..8 holds exactly the hidden singles of cells whose unit is u or later |
| Rules.PlanExactly | soduku-solver.py:150-164 | a rule plans digit d at (r, c) exactly when d is a candidate of (r, c) and of no other cell of the unit through (r, c), using candidate lists computed when the rule starts |
| Rules.HiddenSingleAtCell | soduku-solver.py:195-199 | a hidden single named by unit and position is the one at its cell's position in the unit through that cell |
| Rules.Apply | soduku-solver.py:160-163 | carrying out a plan reports a change exactly when the plan was not empty, unless a commit raised; an empty plan changes nothing |
| Rules.ApplyProgress | soduku-solver.py:160-163 | carrying out a plan never frees or renumbers a committed cell, and one carried out to its end with a commit leaves fewer unoccupied cells |
| Rules.ApplyCommitsAll | soduku-solver.py:162 | when no commit raised, every planned cell holds its planned digit at the end |
| Rules.ApplyChangesOnlyTargets | soduku-solver.py:162 | a cell changed by a plan was unoccupied and now holds the digit of a commit aimed at it |
| Rules.ApplyWellFormed | soduku-solver.py:162 | carrying out a plan keeps the cell invariant |
| Rules.ApplyConsistent | soduku-solver.py:113-117 | carrying out a plan through checked commits keeps every unit free of repeated digits |
| Rules.Continue | soduku-solver.py:160-163 | carrying out a plan after a step: after a raise, or with an empty plan, the step is unchanged |
| Rules.ContinueApply | soduku-solver.py:160-163 | continuing after a step that did not raise is carrying out the plan on its board with the change flags or-ed |
| Rules.ContinueConcat | soduku-solver.py:160-163 | carrying out two plans one after the other is carrying out their concatenation |
| Rules.RunEach | soduku-solver.py:153-163 | carrying out a list of plans one after another: after a raise, or with no plans, the step is unchanged |
| Rules.TableSinglesAreSingles | soduku-solver.py:155-162 | the commits read off a table that matches the candidate lists are the hidden singles of those lists |
| Rules.AllSinglesRun | soduku-solver.py:153-163 | handling the units one by one, digits 1..9 in each, is carrying out the whole plan in unit order |
| Rules.CommitStep | soduku-solver.py:161-163 | one table entry handled by a checked commit is that entry's commit carried out, changing only its own unit |
| Rules.Rule | soduku-solver.py:150-202 | one hidden-single rule of a unit kind: the plan computed from the recomputed candidate lists, carried out on the recomputed board; the board keeps its 81 cells |
| Rules.RuleSameFill | soduku-solver.py:150-202 | a hidden-single rule depends only on numbers and flags, since it recomputes every candidate list first |
| Rules.RuleProgress | soduku-solver.py:150-164 | a hidden-single rule never frees or renumbers a committed cell, leaves fewer unoccupied cells when it reports a change, the same numbers when not, and keeps the invariant |
| Rules.PlanProgress | soduku-solver.py:153-163 | carrying out the plan never frees a committed cell; with no commit the board is unchanged |
| Rules.PlanCommitsHiddenSingles | soduku-solver.py:153-163 | when no commit raised, every hidden single of the starting candidate lists ends committed |
| Rules.PlanChangesOnlyHiddenSingles | soduku-solver.py:153-163 | every cell the plan changes was unoccupied and now holds a digit it alone held as a candidate in its unit |
| Rules.RuleCommitsHiddenSingles | soduku-solver.py:150-164 | when a rule ends without raising, every hidden single of the candidate lists it starts from is committed |
| Rules.RuleChangesOnlyHiddenSingles | soduku-solver.py:150-164 | a rule changes a cell only by committing to it a digit that cell alone held as a candidate in its unit |
| Rules.Then | soduku-solver.py:207-210 | one more rule run after a step, the change flags or-ed; the board keeps its 81 cells |
| Rules.ThenSameFill | soduku-solver.py:207-210 | a rule run after two steps that did not raise, with equal status and the same numbers and flags, gives the same step |
| Rules.Pass | soduku-solver.py:206-210 | one pass of the loop: forced singles, then the row, column and block rules, the first raise ending it; the board keeps its 81 cells |
| Rules.ThenProgress | soduku-solver.py:206-210 | adding one more rule to a pass keeps the progress facts and the cell invariant |
| Rules.PassProgress | soduku-solver.py:206-210 | a pass never frees or renumbers a committed cell, leaves fewer unoccupied cells when it reports a change, the same numbers when it reports none, and keeps the invariant |
| Rules.Solve | soduku-solver.py:204-213 | the solver loop terminates; on a completed board it returns the board unchanged |
| Rules.SolveCases | soduku-solver.py:204-213 | one round of the loop either stops on a completed board, stops on a raise, stops after a pass with no commit, or continues from the pass's board |
| Rules.SolveCommitted | soduku-solver.py:204-213 | the solver never frees or renumbers a committed cell |
| Rules.SolveWellFormed | soduku-solver.py:204-213 | the solver keeps the cell invariant |
| Rules.PassSameFill | soduku-solver.py:206-210 | a pass depends only on numbers and flags, on any board, completed or not, so rerunning it on a board with the same numbers gives the same result |
| Rules.SolveStops | soduku-solver.py:204-213 | when the solver stops without raising, the grid is complete or one more pass would commit nothing |
| SodukuSolver.TabulateLists | soduku-solver.py:155-159 | the table built from a unit's candidate lists maps each digit to the ascending positions holding it |
| SodukuSolver.RecordCandidates | soduku-solver.py:158-159 | appending one position under each of its candidates extends every entry by that position exactly when the position holds the digit |
| SodukuSolver.Soduku.InitCell | soduku-solver.py:46-52 | builds 81 distinct fresh cells, cell (r, c) at row-major position with its row, column and block recorded and in the initial state of its number |
| SodukuSolver.Soduku.InitRow | soduku-solver.py:48-51 | appends row r's nine fresh cells after the rows above, with their positions recorded and in their initial state |
| SodukuSolver.Soduku.constructor | soduku-solver.py:41-44 | the new grid satisfies the invariant, records every cell's block, and holds the initial cell of each of the 81 numbers |
| SodukuSolver.Soduku.GetCell | soduku-solver.py:89-90 | returns the cell at row irow and column icol |
| SodukuSolver.Soduku.GetRow | soduku-solver.py:83-84 | returns the nine cells of row irow, position p at column p |
| SodukuSolver.Soduku.GetCol | soduku-solver.py:86-87 | returns the nine cells of column icol, position p at row p |
| SodukuSolver.Soduku.GetBlock | soduku-solver.py:78-81 | returns the nine cells of the block, flattened row-major: position p is cell (3·br + p / 3, 3·bc + p % 3) |
| SodukuSolver.Soduku.BlockCellsInBlock | soduku-solver.py:78-81 | every cell the block accessor yields lies in that block, and the block index it recorded at construction is that block |
| SodukuSolver.Soduku.BlockIsUnit | soduku-solver.py:78-81 | the block accessor yields the cells of unit number 3·br + bc in position order |
| SodukuSolver.Soduku.UnitHolds | soduku-solver.py:92-102 | scanning a unit's cells for a number is asking whether the board holds that number in the unit |
| SodukuSolver.Soduku.CheckInRow | soduku-solver.py:92-93 | true exactly when some cell of row irow holds num |
| SodukuSolver.Soduku.CheckInCol | soduku-solver.py:95-96 | true exactly when some cell of column icol holds num |
| SodukuSolver.Soduku.CheckInBlock | soduku-solver.py:98-102 | true exactly when some cell of the block containing (irow, icol) holds num |
| SodukuSolver.Soduku.BlockHolds | soduku-solver.py:98-102 | the block of (irow, icol) is (irow / 3, icol / 3), and scanning it is the board holding num in that block |
| SodukuSolver.Soduku.CheckNumValid | soduku-solver.py:104-111 | true exactly when num is legal at (irow, icol): the cell is unoccupied and num is in none of its three units |
| SodukuSolver.Soduku.IsCompleted | soduku-solver.py:119-121 | true exactly when no cell holds 0 |
| SodukuSolver.Soduku.SetCell | soduku-solver.py:113-117 | succeeds exactly when the checked commit does (on a valid grid, exactly when num is legal there); on success only cell (irow, icol) changes, to num with no candidates; on failure nothing changes |
| SodukuSolver.Soduku.SetCellCandidates | soduku-solver.py:123-128 | only cell (irow, icol) changes: its candidates become the ascending legal digits and the count their number |
| SodukuSolver.Soduku.LegalCandidates | soduku-solver.py:124-127 | returns the digits 1..9 legal at (irow, icol), ascending |
| SodukuSolver.Soduku.AppendIfValid | soduku-solver.py:126-127 | appends num exactly when it is legal at (irow, icol) |
| SodukuSolver.Soduku.SetAllCandidates | soduku-solver.py:130-133 | the board becomes its recomputation: every candidate list replaced, numbers unchanged |
| SodukuSolver.Soduku.ConfirmCell | soduku-solver.py:142-143 | only the given cell changes, by committing its sole candidate; the result says whether it did |
| SodukuSolver.Soduku.ConfirmRow | soduku-solver.py:141-145 | after row irow, every cell up to its end has been swept and the count is positive exactly when one of them was committed |
| SodukuSolver.Soduku.ConfirmAll | soduku-solver.py:140-145 | the board becomes its sweep; the change count is positive exactly when some cell was forced; applied accumulates |
| SodukuSolver.Soduku.SolverElimination | soduku-solver.py:135-148 | the board and result are those of the forced-single rule iterated to its fixed point |
| SodukuSolver.Soduku.GetUnit | soduku-solver.py:182-187 | returns the nine cells of row, column or block u in position order |
| SodukuSolver.Soduku.Tabulate | soduku-solver.py:154-159 | the table maps each digit to the ascending positions of the unit whose candidate list (of the rule's starting board) holds it |
| SodukuSolver.Soduku.CommitUnique | soduku-solver.py:160-163 | handling one table entry is carrying out its commit, if any, through the checked commit; nothing outside the unit changes |
| SodukuSolver.Soduku.CommitDigits | soduku-solver.py:160-163 | handling the entries of digits 1..9 in order is carrying out the unit's hidden singles; nothing outside the unit changes |
| SodukuSolver.Soduku.UniqueCandidateInUnit | soduku-solver.py:154-163 | building the unit's table and handling it carries out the unit's hidden singles; nothing outside the unit changes |
| SodukuSolver.Soduku.UniqueCandidateInUnits | soduku-solver.py:153-163 | handling the units in index order carries out, in order, the hidden singles of all nine |
| SodukuSolver.Soduku.UniqueCandidate | soduku-solver.py:150-164 | board and status are those of the hidden-single rule of the given kind |
| SodukuSolver.Soduku.SolverRowUniqueCandidate | soduku-solver.py:150-164 | board and status are those of the row hidden-single rule |
| SodukuSolver.Soduku.SolverColUniqueCandidate | soduku-solver.py:166-180 | board and status are those of the column hidden-single rule |
| SodukuSolver.Soduku.SolverBlockUniqueCandidate | soduku-solver.py:182-202 | board and status are those of the block hidden-single rule |
| SodukuSolver.Soduku.CountRule | soduku-solver.py:208-210 | running one more rule adds at most one to the count and yields the step of that rule run after the previous ones |
| SodukuSolver.Soduku.SolverPass | soduku-solver.py:206-210 | the four rules in order give the board and status of one pass; the count is at most 4 and positive exactly when a rule committed |
| SodukuSolver.Soduku.Solver | soduku-solver.py:204-213 | returns the grid's own cells, with board and raise flag those of the solver loop, which terminates and stops complete, stuck, or on a raise |

## Left out

- Reading the puzzle file with `np.loadtxt` is I/O. Construction takes the 81 numbers, row-major, as a sequence instead.
- `show` and `__repr__` only print.
- The `__main__` block only picks puzzle files and prints results.
- numpy object arrays, slicing and `flatten` are replaced by index arithmetic on one row-major sequence of cells. A block accessor therefore returns the block already flattened.
- A `ValueError` is not modelled as an exception; it is modelled as a result:
  - `FillNumber` and `SetCell` return `false`;
  - a rule returns `Raised`;
  - `Solver` returns `raised` along with the cells, where the source unwinds instead.

  The board left behind is the one the source leaves at the moment it raises.
- `cell_index` is modelled as the two fields `row` and `col`, and `block_index` as `blockRow` and `blockCol`. They are not part of `Cell.Valid`, because neither the source nor the model reads `block_index` after construction. `BlockIndexed` records the fact separately.
- The constructor does not check the initial numbers (duplicates, values outside 0..9), because the source does not either. A cell whose number is outside 0..9 is still modelled faithfully: it counts as occupied when its number is not 0.
- The table `{1: [], …, 9: []}` is iterated in insertion order, which is digit order 1..9. Its lookup of a candidate outside 1..9 cannot fail, because candidate lists only ever hold digits from 1..9; `TabulateLists` requires this.
- SolverElimination: it is not claimed that the rule keeps units free of repeated digits. `confirm_candidates` bypasses the legality check of `set_cell`. On a contradictory puzzle, two cells of one unit with the same sole candidate are both committed in one sweep. `ApplyConsistent` and `PlaceConsistent` state this property only for checked commits.
