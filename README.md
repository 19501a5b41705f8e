# Sudoku constraint-propagation engine in Dafny

This is a model of the Sudoku solver's engine (`src/sudoku_board.rs` and
`src/sudoku_board/cell.rs`), with proofs about it. It has four modules:

- **`SudokuCell`** (`cell.dfy`) models the two `Copy` structs of `cell.rs`.
  - `CellOptions` is a 9-bit candidate mask held in a `u16`; bit k stands for the digit k + 1.
  - `Cell` pairs the stored character with its mask. `' '` means the cell is unassigned.
  - Both structs are stored by value, so they are datatypes. A `&mut self` method becomes a function that returns the updated value.
  - `character()` and `options()` read the fields `c` and `opt`.
  - The `u16` is represented by the set of positions of its set bits. `|` is union, `&` is intersection and `!` is the complement within 16 bits. `v - 1` is `MinusOne`: the lowest bit is cleared and every bit below it is set. This keeps the power-of-two test of `has_one_option` literal.
- **`SudokuGrid`** (`grid.dfy`) describes the 81 cells as a row-major sequence. It holds the specification functions that the board's methods are proved against:
  - `Walk` gives the local `options` mask of one deduction walk;
  - `Deduction` gives what one cell of a sweep deduces;
  - `Propagated` says when a digit has been removed from a cell's row, column and box;
  - `Tokens` and `Loaded` describe what `load` reads;
  - `Evolves` says that assigned cells never change and masks only shrink;
  - `IsSolution`, `Agrees` and `KeepsSolutions` say what a completed grid is, when a board allows it, and when an update loses no solution;
  - `Forced` says that every removed candidate is the digit of an assigned cell in the same row, column or box. `Justified` is weaker: it also lets a cell that became assigned lose its other candidates, whatever assigned it. It does not by itself say that a deduction made the assignment.
- **`SudokuCascade`** (`cascade.dfy`) gives, as functions on the board value, the exact board each engine method leaves. The methods of `SudokuBoard` are proved to produce these boards:
  - `ApplyWalk` and `Walks` give one walk and the three walks of `propagate`, with the work stack they build;
  - `Cascade` and `PopAll` give `propagate` itself, whose recursion ends because every entry of the stack is a fresh assignment;
  - `PassRows` and `PassCols` give `first_pass`;
  - `SolveCellSpec`, `SweepRows` and `SweepCols` give one sweep of `solve`;
  - `SolveLoop` and `SolveSpec` give `solve` with its result.
- **`SudokuBoard`** (`board.dfy`) models `Board` as a class whose `entries` array of 81 cells is updated in place.
  - `mut_entry(row, col).op()` is modelled as a write of `entries[i].Op()` back into slot `i = index_at_entry(row, col)`.
  - Every method keeps `Valid()`: each cell's mask stays within `0x1FF`, an assigned cell's mask is the single bit of its digit, and an unassigned cell never holds exactly one candidate.

Results proved about the engine:

- `propagate` terminates. The measure is the number of unassigned cells, and each recursive call follows a fresh assignment.
- On return from `propagate`, no unassigned cell in the cell's row, column or box still has its digit as a candidate. The same holds for every cell the cascade assigned.
- `solve` terminates, because every sweep that does not stop the loop assigns a cell.
- `solve` returns true exactly when all 81 cells are assigned. When it returns false, no unassigned cell admits a deduction.
- Throughout, an assigned cell never changes and a mask only loses bits.
- Every elimination is sound. `propagate`, `first_pass`, one sweep and `solve` keep every completed grid the input allowed (`KeepsSolutions`).
- Every elimination is also explained on the board. After `propagate` and `first_pass`, each removed candidate is the digit of an assigned cell in the same row, column or box (`Forced`). After a sweep and `solve`, it is that, or it belonged to a cell that became assigned (`Justified`).
- Each method leaves exactly the board its `SudokuCascade` function computes from the old board. `PropagateApply`, `ApplyAlong` and `Deduce` state their new board directly. Which cells a sweep or `solve` assigns, and to what, is therefore fixed: only `Deduction`'s digit and the cascade it starts. `Justified` is only an envelope around that.
- When `solve` returns true, the board is the one solution that agrees with the input, if there is one: every solution the input allowed equals the final board.

The box self-skip test of `solve` (`src/sudoku_board.rs:123`) compares both `r0 + r` and `c0 + c` with `col`. It is modelled as written. `SudokuGrid.BoxWalkEmptyOffDiagonal` proves the consequence: off the diagonal the box walk subtracts the cell's own mask from itself, so the box deduction can never succeed there.

Short input to `load` is modelled as the code behaves. On input with fewer than 81 cursor-moving characters, the digits already read stay on the board; the board is not cleared again.

## Model

| member | source | states |
|---|---|---|
| SudokuCell.CellOptions.New | src/sudoku_board/cell.rs:67-71 | `CellOptions::new` has every digit as a candidate, stays within `ALL = 0x1FF`, and is not a single option |
| SudokuCell.CellOptions.Clear | src/sudoku_board/cell.rs:73-75 | `clear` gives the same mask as `new` from any mask; an in-range mask only gains bits |
| SudokuCell.CellOptions.SetOne | src/sudoku_board/cell.rs:77-79 | `set_one(c)` with shift amount `c - '1'` leaves exactly the digit `c` as a candidate; the result is a single option whose last option is `c` |
| SudokuCell.PowerOfTwoTest | src/sudoku_board/cell.rs:81-88 | the power-of-two test `v > 0 && (v == 1 \|\| v & (v - 1) == 0)` holds exactly when one bit is set, and the mask is then that bit alone |
| SudokuCell.HasOneOptionIffSetOne | src/sudoku_board/cell.rs:81-88 | within `0x1FF`, `has_one_option` holds exactly on the nine masks `set_one` produces, and it is false on the empty mask |
| SudokuCell.CellOptions.GetLastOption | src/sudoku_board/cell.rs:90-106 | for a single-option mask within range, the result is a digit whose bit is the whole mask; the `' '` arm is taken exactly when the bit lies outside `0x1FF` |
| SudokuCell.GetLastOptionOfSetOne | src/sudoku_board/cell.rs:77-106 | `get_last_option` undoes `set_one` for every digit |
| SudokuCell.CellOptions.Unset | src/sudoku_board/cell.rs:108-110 | `unset(c)` removes the candidate `c` and no other, and keeps an in-range mask in range |
| SudokuCell.UnsetIdempotent | src/sudoku_board/cell.rs:108-110 | unsetting twice equals unsetting once; unsetting a non-candidate changes nothing |
| SudokuCell.CellOptions.Union | src/sudoku_board/cell.rs:112-117 | a digit is a candidate of the union exactly when it is one of either operand; both operands are contained in it |
| SudokuCell.CellOptions.Intersection | src/sudoku_board/cell.rs:119-124 | a digit is a candidate of the intersection exactly when it is one of both operands; the result is within range if either operand is |
| SudokuCell.CellOptions.Difference | src/sudoku_board/cell.rs:126-130 | the difference keeps exactly the bits of this mask that are not in `other`; an in-range mask stays in range |
| SudokuCell.AlgebraLaws | src/sudoku_board/cell.rs:112-130 | `difference(a, a)` is empty; `difference(a, b)` is within `a` and disjoint from `b`; `union(a, ALL)` is `ALL` for an in-range `a`; intersection with the empty mask is empty |
| SudokuCell.Cell.New | src/sudoku_board/cell.rs:10-12 | `Cell::new` is unassigned (`' '`), has the full mask, and keeps the cell invariant |
| SudokuCell.Cell.Clear | src/sudoku_board/cell.rs:14-17 | `Cell::clear` gives back the `new` cell from any cell |
| SudokuCell.Cell.Set | src/sudoku_board/cell.rs:27-34 | `set(ch)` gives an assigned cell storing `ch` whose mask is the single bit of `ch`, whose last option is `ch`, and which keeps the cell invariant |
| SudokuCell.CellIsSet | src/sudoku_board/cell.rs:32-34 | `is_set` holds exactly when the stored character is a digit; on a consistent cell it holds exactly when the mask has one candidate, and an unassigned consistent cell stores `' '` |
| SudokuCell.Cell.ApplyOption | src/sudoku_board/cell.rs:36-39 | on a single-option cell the mask is unchanged; for an in-range mask the cell becomes assigned to the mask's sole digit |
| SudokuCell.CellHasOneOption | src/sudoku_board/cell.rs:45-47 | `Cell::has_one_option` holds exactly when the cell's mask has one bit set, and that bit is then the whole mask |
| SudokuCell.Cell.RemoveOption | src/sudoku_board/cell.rs:41-43 | `remove_option(ch)` never changes the stored character and removes exactly `ch` from the mask |
| SudokuGrid.IndexAtEntry | src/sudoku_board.rs:236-240 | `index_at_entry` requires `row < 9` and `col < 9`; the index is below 81 and its quotient and remainder by 9 give back `row` and `col` |
| SudokuGrid.IndexAtEntryOnto | src/sudoku_board.rs:236-240 | every index below 81 is `index_at_entry` of its own coordinates, so the map is a bijection onto `0..81` |
| SudokuGrid.CountUnsetZeroIffSolved | src/sudoku_board.rs:158-167 | no cell is unassigned exactly when every cell is set |
| SudokuGrid.CountUnsetMonotone | src/sudoku_board.rs:80 | when no assignment is lost the count of unassigned cells cannot grow, and it drops when a cell gains one: the termination measure of `propagate` and `solve` |
| SudokuGrid.EvolvesCountUnset | src/sudoku_board.rs:80-147 | refining the board never raises the number of unassigned cells, and assigning a cell lowers it |
| SudokuGrid.EvolvesTransitive | src/sudoku_board.rs:217-221 | refinement (assigned cells unchanged, masks shrinking) composes over successive updates |
| SudokuGrid.PropagatedPersists | src/sudoku_board.rs:179-211 | once a digit is propagated, later refinements of the board keep it propagated |
| SudokuGrid.Visited | src/sudoku_board.rs:184-206 | the cell visited at step k of the row, column or box walk lies on the board |
| SudokuGrid.VisitedSharesUnit | src/sudoku_board.rs:184-206 | every cell a walk of `propagate` visits lies in the row, column or 3×3 box of (row, col) |
| SudokuGrid.WalksCoverUnits | src/sudoku_board.rs:184-206 | conversely, every cell of the row, column or box is visited by one of the three walks |
| SudokuGrid.OffWalk | src/sudoku_board.rs:184-206 | a cell outside the row, column and box of (row, col) is visited by none of the three walks |
| SudokuGrid.ExcludedPersists | src/sudoku_board.rs:184-206 | a visited cell that is assigned or lacks the digit stays so while the board is refined |
| SudokuGrid.ExcludedStep | src/sudoku_board.rs:184-206 | excluding the digit at the next visited cell extends the walk's exclusions, whatever else was refined |
| SudokuGrid.ExcludedAfterEliminated | src/sudoku_board.rs:213-226 | `propagate_apply` at the next visited cell extends the exclusions of the walk by that cell |
| SudokuGrid.WalksPropagate | src/sudoku_board.rs:183-206 | excluding the digit along all three walks means the cell is propagated over its whole row, column and box |
| SudokuGrid.Walk | src/sudoku_board.rs:89-95 | the local `options` mask after n walk steps is always within the cell's own mask |
| SudokuGrid.WalkNext | src/sudoku_board.rs:90-95 | one more step of a walk subtracts the visited cell's mask exactly when the step is not skipped and the cell is unassigned |
| SudokuGrid.BoxWalkNext | src/sudoku_board.rs:121-127 | step (r, c) of the nested box loops, with the skip test `r0 + r == col && c0 + c == col` as written, is step 3r + c of the box walk |
| SudokuGrid.WalkBits | src/sudoku_board.rs:89-128 | a digit survives a walk exactly when the cell's own mask has it and no unskipped unassigned visited cell has it |
| SudokuGrid.WalkSingleton | src/sudoku_board.rs:96-99 | when a walk leaves one option, that option is a digit, a candidate of the cell, and excluded from every unskipped visited cell: the hidden-single rule |
| SudokuGrid.BoxWalkEmptyOffDiagonal | src/sudoku_board.rs:116-133 | because the box self-skip compares with `col`, an unassigned cell off the diagonal gets an empty box mask, so the box deduction never succeeds there |
| SudokuGrid.BoxWalkOnDiagonal | src/sudoku_board.rs:121-123 | on the diagonal the box skip test skips exactly the cell itself |
| SudokuGrid.Deduction | src/sudoku_board.rs:86-133 | a digit deduced by the row, column or box walk is a digit and a candidate of the cell |
| SudokuGrid.NoDeductionStep | src/sudoku_board.rs:82-140 | a row-major prefix of cells without a deduction extends by an assigned cell or by one without a deduction |
| SudokuGrid.NoDeductionStuck | src/sudoku_board.rs:143-146 | when none of the 81 cells admits a deduction, the board is stuck |
| SudokuGrid.Tokens | src/sudoku_board.rs:36-43 | the definition of the filter: the characters that move `load`'s cursor, which are all digits or `*`, and no more of them than the text has |
| SudokuGrid.TokensStep | src/sudoku_board.rs:36-43 | the filter keeps text order: one more character of text appends it to the tokens when it is a digit or `*`, and adds nothing otherwise |
| SudokuGrid.TokensPrefix | src/sudoku_board.rs:36-46 | stopping the scan early yields a prefix of the text's tokens |
| SudokuGrid.TokensOfTokens | src/sudoku_board.rs:36-43 | a text made only of digits and `*` is read in full |
| SudokuGrid.LoadedCell | src/sudoku_board.rs:36-43 | every cell `load` leaves keeps the cell invariant |
| SudokuGrid.Loaded | src/sudoku_board.rs:18-47 | the board `load` leaves satisfies the board invariant |
| SudokuGrid.LoadedDigits | src/sudoku_board.rs:36-47 | loading 81 digits assigns every cell, cell i holding the i-th digit, so the board is solved |
| SudokuBoard.Board.constructor | src/sudoku_board.rs:12-15 | `Board::new` holds 81 fresh cells, each `Cell::new` |
| SudokuBoard.Board.Entry | src/sudoku_board.rs:232-234 | `entry(row, col)` returns the cell stored at `index_at_entry(row, col)` |
| SudokuBoard.Board.Clear | src/sudoku_board.rs:152-156 | every cell becomes `Cell::new`, from any board |
| SudokuBoard.Board.IsSolved | src/sudoku_board.rs:158-167 | the result is true exactly when every cell is assigned |
| SudokuBoard.Board.Load | src/sudoku_board.rs:17-55 | after the scan the board is `Loaded` of the text's tokens: the first 81 digits and `*` fill the cells in row-major order, with other characters skipped. The result is true exactly when at least 81 cells were visited; digits read from short input stay on the board |
| SudokuGrid.Eliminated | src/sudoku_board.rs:213-226 | the cell `propagate_apply` leaves: an assigned cell is unchanged; otherwise the mask loses exactly `chr`, and the cell stays consistent, is only refined, and is assigned or no longer has `chr` |
| SudokuGrid.EvolvesEliminated | src/sudoku_board.rs:213-226 | `propagate_apply` on one cell keeps the board invariant and only refines the board |
| SudokuGrid.EliminatedExcluded | src/sudoku_board.rs:217-219 | `propagate_apply` on a cell that is assigned or already lacks the digit leaves it as it is |
| SudokuGrid.WitnessedPersists | src/sudoku_board.rs:213-226 | an assigned neighbour that explains an elimination keeps explaining it while the board is refined |
| SudokuGrid.ForcedTransitive | src/sudoku_board.rs:179-211 | forced eliminations compose across successive steps of the cascade |
| SudokuGrid.JustifiedTransitive | src/sudoku_board.rs:80-146 | justified eliminations compose across successive cells of a sweep and successive sweeps |
| SudokuGrid.ForcedJustified | src/sudoku_board.rs:135-138 | a forced elimination, as `propagate` makes inside a sweep, is a justified one |
| SudokuGrid.AssignJustified | src/sudoku_board.rs:96-132 | assigning one unassigned cell and changing nothing else, as a deduction does, is justified |
| SudokuGrid.CascadeTransitive | src/sudoku_board.rs:179-211 | kept solutions and forced eliminations compose over successive steps together |
| SudokuGrid.SoundTransitive | src/sudoku_board.rs:82-141 | refinement, kept solutions and justified eliminations compose over successive cells of a sweep |
| SudokuGrid.ForcedStep | src/sudoku_board.rs:184-206 | `propagate_apply` on a cell with the digit of an assigned cell of the same row, column or box keeps the board refined and every elimination forced |
| SudokuGrid.KeepsSolutionsTransitive | src/sudoku_board.rs:179-211 | losing no solution composes across successive updates |
| SudokuGrid.AgreesAssigned | src/sudoku_board.rs:213-226 | a solution the board allows holds the digit of every assigned cell |
| SudokuGrid.EliminationSound | src/sudoku_board.rs:213-226 | removing an assigned cell's digit from a cell of its row, column or box, and assigning that cell when one option is left, loses no solution |
| SudokuGrid.WalkSound | src/sudoku_board.rs:89-133 | on a fully propagated board, when a walk leaves one option for an unassigned cell, every solution the board allows puts that digit in the cell: the hidden-single rule is sound |
| SudokuGrid.DeductionSound | src/sudoku_board.rs:86-133 | assigning the digit `Deduction` finds loses no solution |
| SudokuGrid.SolvedIsSolution | src/sudoku_board.rs:158-167 | a board with every cell assigned that allows a solution is that solution, cell by cell |
| SudokuCascade.StackFreshAppend | src/sudoku_board.rs:181-206 | stacks pushed by successive walks concatenate, and every entry still names a cell assigned since the cascade began |
| SudokuCascade.StackFreshCount | src/sudoku_board.rs:208-210 | a stack of fresh entries names assigned cells, and a non-empty one means fewer unassigned cells than when the cascade began |
| SudokuCascade.ApplyWalk | src/sudoku_board.rs:184-206 | the board and the pushes after n steps of one walk, each a `propagate_apply`; the board invariant holds |
| SudokuCascade.ApplyWalkEvolves | src/sudoku_board.rs:184-206 | a walk only refines the board, and every cell it pushes was unassigned before and is assigned after |
| SudokuCascade.ApplyWalkKeepsAssigned | src/sudoku_board.rs:216-223 | a walk leaves every assigned cell as it is, as the `!entry.is_set()` guard promises |
| SudokuCascade.Walks | src/sudoku_board.rs:183-206 | the row, column and box walks in source order with the digit of the cell, and their concatenated stack; the board invariant holds |
| SudokuCascade.WalksEvolves | src/sudoku_board.rs:183-206 | the three walks only refine the board, and push only cells they newly assigned |
| SudokuCascade.Cascade | src/sudoku_board.rs:179-211 | the board `propagate(row, col)` leaves: defined for every assigned cell, so the recursion ends, and it only refines the board |
| SudokuCascade.PopAll | src/sudoku_board.rs:208-210 | popping the work stack last-in first-out and propagating each entry; defined for every stack of assigned cells and only refines the board |
| SudokuCascade.PopAllNext | src/sudoku_board.rs:208-210 | popping a non-empty stack is propagating its top and then popping the rest, which still names assigned cells; the count of unassigned cells does not grow |
| SudokuCascade.PassRows | src/sudoku_board.rs:169-177 | the board after the first rows of `first_pass`; it only refines the board |
| SudokuCascade.PassCols | src/sudoku_board.rs:171-175 | the board after the first cells of one row of `first_pass`; it only refines the board |
| SudokuCascade.PassColsStep | src/sudoku_board.rs:172-174 | one more cell of `first_pass` propagates it when it is assigned and otherwise changes nothing |
| SudokuCascade.SolveCellSpec | src/sudoku_board.rs:84-138 | the board one unassigned cell of a sweep leaves: unchanged when `Deduction` finds nothing; otherwise the cell holds `Set` of the deduced digit, fewer cells are unassigned, and the board has only been refined |
| SudokuCascade.SweepRows | src/sudoku_board.rs:82-141 | the board and `made_updates` after the first rows of a sweep: with an update fewer cells are unassigned, without one the board is unchanged |
| SudokuCascade.SweepCols | src/sudoku_board.rs:83-139 | the same for the first cells of one row of a sweep |
| SudokuCascade.SweepRowsStep | src/sudoku_board.rs:82-141 | one more row of the sweep is `SweepCols` over that row, with the flags or-ed |
| SudokuCascade.SweepColsStep | src/sudoku_board.rs:84-139 | one more cell of the sweep skips an assigned cell and otherwise is `SolveCellSpec`, setting the flag when a digit was deduced |
| SudokuCascade.SolveLoop | src/sudoku_board.rs:80-147 | the `while !is_solved()` loop with its result: defined for every board, so the loop ends, and it only refines the board |
| SudokuCascade.SolveSpec | src/sudoku_board.rs:75-150 | `first_pass` followed by the sweep loop, with the value `solve` returns; it only refines the board |
| SudokuBoard.Board.PropagateApply | src/sudoku_board.rs:213-226 | the board becomes the old one with only the visited cell replaced by `Eliminated`. The result is true exactly when the cell became assigned, the cell then excludes `chr`, and a cell that already excluded it is left alone |
| SudokuBoard.ApplySound | src/sudoku_board.rs:184-206 | one `propagate_apply` step of a walk loses no solution and keeps every elimination forced |
| SudokuBoard.FrameStep | src/sudoku_board.rs:184-206 | after one more step of a walk with `chr`, still only `chr` has been removed and only cells on the walk have changed |
| SudokuBoard.ApplyWalkNext | src/sudoku_board.rs:185-187 | one `propagate_apply` and the push it may make is one more step of `ApplyWalk` |
| SudokuBoard.ApplyWalkPushes | src/sudoku_board.rs:184-206 | every cell a walk assigns is on the stack it builds |
| SudokuBoard.ApplyWalkIdle | src/sudoku_board.rs:184-206 | a walk with the digit of an already propagated cell changes nothing and pushes nothing |
| SudokuBoard.ApplyWalkWalking | src/sudoku_board.rs:184-206 | a walk keeps the walking invariant: the board only refined, every new assignment pushed, nothing done for a propagated cell |
| SudokuBoard.ApplyWalkExcludes | src/sudoku_board.rs:184-206 | after n steps of a walk each of the first n visited cells is assigned or lacks `chr` |
| SudokuBoard.ApplyWalkSound | src/sudoku_board.rs:184-206 | a walk with the digit of an assigned cell loses no solution and makes only forced eliminations |
| SudokuBoard.ApplyWalkFrame | src/sudoku_board.rs:184-206 | a walk with `chr` removes no candidate but `chr` and changes only cells it has visited |
| SudokuBoard.WalksWalking | src/sudoku_board.rs:183-206 | the three walks together keep the walking invariant, starting from an empty stack |
| SudokuBoard.WalksPropagated | src/sudoku_board.rs:183-206 | after the three walks the cell is propagated over its row, column and box |
| SudokuBoard.WalksSound | src/sudoku_board.rs:183-206 | the three walks lose no solution and make only forced eliminations |
| SudokuBoard.WalksFrame | src/sudoku_board.rs:183-206 | the three walks remove nothing but the cell's digit and change no cell outside its row, column and box |
| SudokuBoard.StartPopping | src/sudoku_board.rs:206-208 | once the walks have propagated the cell, soundly and with forced eliminations, the popping invariant holds |
| SudokuBoard.PopTop | src/sudoku_board.rs:208-209 | the top of a non-empty stack is an assigned cell on the board, and fewer cells are unassigned than when the cascade began: the measure of the recursive call |
| SudokuBoard.PopStep | src/sudoku_board.rs:208-210 | propagating the popped top keeps the popping invariant for the rest of the stack |
| SudokuBoard.EndPopping | src/sudoku_board.rs:208-211 | with the stack empty, the cell and every cell the cascade assigned are propagated, soundly and with forced eliminations |
| SudokuBoard.Board.ApplyAlong | src/sudoku_board.rs:184-206 | the new board and the stack are exactly `ApplyWalk` of the old board over the nine steps of the walk, the assigned cells appended to the stack it was given |
| SudokuBoard.Board.ApplyToUnits | src/sudoku_board.rs:183-206 | the new board and the stack are exactly `Walks` of the old board. The cell is then propagated and every cell the walks assigned is on the stack; only the cell's digit is removed, no cell outside its row, column and box changes, no solution is lost and every elimination is forced |
| SudokuBoard.Board.Propagate | src/sudoku_board.rs:179-211 | for an assigned cell, the new board is exactly `Cascade` of the old one. The recursion terminates; the board invariant holds; the board is only refined; the cell and every cell the cascade assigned are propagated; nothing changes when the cell was already propagated; no solution is lost and every removed candidate is the digit of an assigned cell of the same row, column or box |
| SudokuBoard.PropagateKeeps | src/sudoku_board.rs:170-176 | after `propagate(row, col)` in the row-major loop, every assigned cell up to (row, col) and every newly assigned cell is propagated |
| SudokuBoard.PassStep | src/sudoku_board.rs:172-174 | one cell of `first_pass` extends the row-major prefix of propagated cells by one, soundly and with forced eliminations |
| SudokuBoard.Board.FirstPass | src/sudoku_board.rs:169-177 | the new board is exactly `PassRows` of the old one over all nine rows. Every assigned cell, given or assigned by the cascade, is then propagated, the board has only been refined, no solution is lost and every elimination is forced |
| SudokuBoard.Board.PassRow | src/sudoku_board.rs:170-176 | one iteration of the outer loop of `first_pass`: the new board is exactly `PassCols` over the row, and the propagated prefix grows by the row |
| SudokuBoard.Board.WalkRow | src/sudoku_board.rs:89-95 | the row walk computes `Walk` over the row: the cell's own mask minus the masks of the other unassigned cells of its row |
| SudokuBoard.Board.WalkColumn | src/sudoku_board.rs:103-109 | the column walk computes `Walk` over the column |
| SudokuBoard.Board.WalkBox | src/sudoku_board.rs:118-128 | the box walk, with its skip test as written, computes `Walk` over the box |
| SudokuBoard.Board.Deduce | src/sudoku_board.rs:86-133 | the cell is assigned exactly when `Deduction` finds a digit, and it is assigned that digit with nothing else changed; otherwise the board is unchanged |
| SudokuBoard.AssignKeeps | src/sudoku_board.rs:135-138 | on a fully propagated board, assigning a cell and propagating it keeps the board fully propagated and lowers the number of unassigned cells |
| SudokuBoard.DeduceSound | src/sudoku_board.rs:86-138 | a deduction followed by the cascade it starts loses no solution and makes only justified eliminations |
| SudokuBoard.SweepStep | src/sudoku_board.rs:84-139 | one cell of a sweep keeps the sweeping invariant: without an update so far the board is unchanged and the visited prefix admits no deduction, with one fewer cells are unassigned |
| SudokuBoard.Board.SolveCell | src/sudoku_board.rs:84-138 | for one unassigned cell, the new board is exactly `SolveCellSpec` of the old one. The cell is solved exactly when `Deduction` finds a digit; it then holds `Set` of that digit and the cascade leaves the board fully propagated with fewer unassigned cells; otherwise nothing changes. No solution is lost, and every elimination is justified |
| SudokuBoard.Board.Sweep | src/sudoku_board.rs:81-146 | the new board and `made_updates` are exactly `SweepRows` of the old board over all nine rows. The board stays fully propagated; with updates fewer cells are unassigned; without updates the board is unchanged and no unassigned cell admits a deduction. No solution is lost, and every elimination is justified |
| SudokuBoard.Board.SweepRow | src/sudoku_board.rs:82-140 | one iteration of the outer loop of a sweep: the new board and the row's flag are exactly `SweepCols` over the row, and the sweeping invariant grows by the row |
| SudokuBoard.Board.Solve | src/sudoku_board.rs:75-150 | the new board and the result are exactly `SolveSpec` of the old board. It terminates; the result is true exactly when every cell is assigned; when false, no remaining cell admits a deduction; the board is only refined and ends fully propagated. No solution is lost and every elimination is justified; when true, every solution the input allowed equals the final board |

## Left out

- File reading and the `println!` diagnostics of `load` (`src/sudoku_board.rs:21-32`, `49`) are not modelled. `Load` takes the text already read, so the unreadable-file error path is absent.
- `Board::print` (`src/sudoku_board.rs:57-73`) is left out because it only writes to standard output.
- `Cell::display` and `CellOptions::display` (`src/sudoku_board/cell.rs:49-58`, `132-153`) are left out. They are dead code and build strings with an external crate.
- `src/main.rs`, the command-line wrapper, is not part of this model.
- `set_one` and `unset` require a digit (`IsDigit`), because every call site passes one. Characters outside `'1'..'9'` are not modelled. `':'..'@'` would set or clear a bit outside `0x1FF`. A character below `'1'`, or 16 or more past it, overflows the subtraction or the shift; that panics only in a debug build.
- The `assert!`s of `index_at_entry`, `apply_option` and `get_last_option` are preconditions. Every caller in the model proves them.
- The `u16` is modelled by its set of bit positions rather than as a machine word. No operation of the engine overflows 16 bits.
- `Cell` and `CellOptions` are datatypes, so an in-place update through `&mut self` or `mut_entry` becomes a new value written back into the array slot. For these `Copy` structs the resulting states are the same.
- The row, column and box loops of `propagate` are written as one loop (`ApplyAlong`) over the nine steps of `Visited`. It visits the same cells in the same order.
- The outer loops of `first_pass` and of a sweep have their bodies in methods of their own (`PassRow`, `SweepRow`); the loops are the same.
- The three deductions of one cell are a method of their own (`Deduce`). The `propagate` call that follows a success is made by `SolveCell`, as at `src/sudoku_board.rs:135-138`, and `Sweep` calls `SolveCell` on every unassigned cell.
- On a puzzle with no solution, `KeepsSolutions` holds vacuously. There, the exact-state clauses and `Forced` are what constrain the eliminations.
- The behaviour of the engine on particular concrete puzzles is not proved.
