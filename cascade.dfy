/** The engine of src/sudoku_board.rs as functions on the board value: what
    `propagate`, `first_pass`, one sweep of `solve` and `solve` itself leave in
    the 81 cells. Each function follows the control flow of its method, step for
    step, and the methods of `SudokuBoard.Board` are proved to produce exactly
    these boards. */
module SudokuCascade {
  import opened SudokuCell
  import opened SudokuGrid

  /** Every entry of `propagate`'s work stack names a cell of the board. */
  predicate StackSet(cells: seq<Cell>, stack: seq<(nat, nat)>)
    requires |cells| == ENTRY_COUNT
  {
    forall j | 0 <= j < |stack| ::
      stack[j].0 < ROW_COUNT && stack[j].1 < COL_COUNT && At(cells, stack[j].0, stack[j].1).IsSet()
  }

  /** Every entry of `propagate`'s work stack names a cell that has been assigned
      since the cascade started from `before`. */
  predicate StackFresh(before: seq<Cell>, cells: seq<Cell>, stack: seq<(nat, nat)>)
    requires |before| == ENTRY_COUNT && |cells| == ENTRY_COUNT
  {
    forall j | 0 <= j < |stack| ::
      && stack[j].0 < ROW_COUNT && stack[j].1 < COL_COUNT
      && At(cells, stack[j].0, stack[j].1).IsSet()
      && !At(before, stack[j].0, stack[j].1).IsSet()
  }

  /** Fresh entries stay fresh, and stacks pushed one after another concatenate. */
  lemma StackFreshAppend(a: seq<Cell>, b: seq<Cell>, c: seq<Cell>, s: seq<(nat, nat)>, t: seq<(nat, nat)>)
    requires Evolves(a, b) && Evolves(b, c) && StackFresh(a, b, s) && StackFresh(b, c, t)
    ensures StackFresh(a, c, s + t)
  {
    forall j | 0 <= j < |s + t|
      ensures && (s + t)[j].0 < ROW_COUNT && (s + t)[j].1 < COL_COUNT
              && At(c, (s + t)[j].0, (s + t)[j].1).IsSet() && !At(a, (s + t)[j].0, (s + t)[j].1).IsSet()
    {
      if j < |s| {
        var e := s[j];
        assert Refines(b[IndexAtEntry(e.0, e.1)], c[IndexAtEntry(e.0, e.1)]);
      } else {
        var e := t[j - |s|];
        assert Refines(a[IndexAtEntry(e.0, e.1)], b[IndexAtEntry(e.0, e.1)]);
      }
    }
  }

  /** A non-empty stack of fresh entries means some cell became assigned. */
  lemma StackFreshCount(before: seq<Cell>, cells: seq<Cell>, stack: seq<(nat, nat)>)
    requires Evolves(before, cells) && StackFresh(before, cells, stack)
    ensures StackSet(cells, stack)
    ensures stack != [] ==> CountUnset(cells) < CountUnset(before)
  {
    if stack != [] {
      var i := IndexAtEntry(stack[0].0, stack[0].1);
      assert !before[i].IsSet() && cells[i].IsSet();
    }
    EvolvesCountUnset(before, cells);
  }

  /** The first n steps of one walk of `propagate` with `chr`
      (sudoku_board.rs:184-206): each visited cell becomes `Eliminated`, and the
      cells that this assigns are pushed in visiting order. */
  function ApplyWalk(cells: seq<Cell>, unit: Unit, row: nat, col: nat, chr: char, n: nat): (r: (seq<Cell>, seq<(nat, nat)>))
    requires WellFormed(cells) && row < ROW_COUNT && col < COL_COUNT && n <= 9 && IsDigit(chr)
    ensures WellFormed(r.0)
  {
    if n == 0 then (cells, [])
    else
      var prev := ApplyWalk(cells, unit, row, col, chr, n - 1);
      var i := VisitedIndex(unit, row, col, n - 1);
      var next := prev.0[i := Eliminated(prev.0[i], chr)];
      (next, prev.1 + if !prev.0[i].IsSet() && next[i].IsSet() then [Visited(unit, row, col, n - 1)] else [])
  }

  /** A walk only refines the board, and pushes exactly cells it assigned. */
  lemma {:induction false} ApplyWalkEvolves(cells: seq<Cell>, unit: Unit, row: nat, col: nat, chr: char, n: nat)
    requires WellFormed(cells) && row < ROW_COUNT && col < COL_COUNT && n <= 9 && IsDigit(chr)
    ensures var w := ApplyWalk(cells, unit, row, col, chr, n); Evolves(cells, w.0) && StackFresh(cells, w.0, w.1)
  {
    if n > 0 {
      ApplyWalkEvolves(cells, unit, row, col, chr, n - 1);
      var prev := ApplyWalk(cells, unit, row, col, chr, n - 1);
      var i := VisitedIndex(unit, row, col, n - 1);
      var next := prev.0[i := Eliminated(prev.0[i], chr)];
      var pushed := if !prev.0[i].IsSet() && next[i].IsSet() then [Visited(unit, row, col, n - 1)] else [];
      EvolvesEliminated(prev.0, i, chr);
      EvolvesTransitive(cells, prev.0, next);
      StackFreshAppend(cells, prev.0, next, prev.1, pushed);
    }
  }

  /** A walk leaves an assigned cell as it is. */
  lemma ApplyWalkKeepsAssigned(cells: seq<Cell>, unit: Unit, row: nat, col: nat, chr: char, j: nat)
    requires WellFormed(cells) && row < ROW_COUNT && col < COL_COUNT && IsDigit(chr)
    requires j < ENTRY_COUNT && cells[j].IsSet()
    ensures ApplyWalk(cells, unit, row, col, chr, 9).0[j] == cells[j]
  {
    ApplyWalkEvolves(cells, unit, row, col, chr, 9);
    assert Refines(cells[j], ApplyWalk(cells, unit, row, col, chr, 9).0[j]);
  }

  /** The three walks of `propagate(row, col)` (sudoku_board.rs:183-206) with the
      cell's digit: the board after them and the work stack they build. */
  function Walks(cells: seq<Cell>, row: nat, col: nat): (r: (seq<Cell>, seq<(nat, nat)>))
    requires WellFormed(cells) && row < ROW_COUNT && col < COL_COUNT && At(cells, row, col).IsSet()
    ensures WellFormed(r.0)
  {
    var chr := At(cells, row, col).c;
    var w1 := ApplyWalk(cells, Row, row, col, chr, 9);
    var w2 := ApplyWalk(w1.0, Column, row, col, chr, 9);
    var w3 := ApplyWalk(w2.0, Box, row, col, chr, 9);
    (w3.0, w1.1 + w2.1 + w3.1)
  }

  /** The three walks only refine the board, and push exactly cells they assigned. */
  lemma WalksEvolves(cells: seq<Cell>, row: nat, col: nat)
    requires WellFormed(cells) && row < ROW_COUNT && col < COL_COUNT && At(cells, row, col).IsSet()
    ensures var w := Walks(cells, row, col); Evolves(cells, w.0) && StackFresh(cells, w.0, w.1)
  {
    var chr := At(cells, row, col).c;
    var w1 := ApplyWalk(cells, Row, row, col, chr, 9);
    var w2 := ApplyWalk(w1.0, Column, row, col, chr, 9);
    var w3 := ApplyWalk(w2.0, Box, row, col, chr, 9);
    ApplyWalkEvolves(cells, Row, row, col, chr, 9);
    ApplyWalkEvolves(w1.0, Column, row, col, chr, 9);
    ApplyWalkEvolves(w2.0, Box, row, col, chr, 9);
    StackFreshAppend(cells, w1.0, w2.0, w1.1, w2.1);
    EvolvesTransitive(cells, w1.0, w2.0);
    StackFreshAppend(cells, w2.0, w3.0, w1.1 + w2.1, w3.1);
    EvolvesTransitive(cells, w2.0, w3.0);
  }

  /** `propagate(row, col)` (sudoku_board.rs:179-211): the three walks, then the
      cells on the work stack are propagated in turn, last pushed first. It ends
      because a non-empty stack means fewer unassigned cells. */
  function Cascade(cells: seq<Cell>, row: nat, col: nat): (r: seq<Cell>)
    requires WellFormed(cells) && row < ROW_COUNT && col < COL_COUNT && At(cells, row, col).IsSet()
    ensures WellFormed(r) && Evolves(cells, r)
    decreases CountUnset(cells), 1, 0
  {
    var w := Walks(cells, row, col);
    WalksEvolves(cells, row, col);
    StackFreshCount(cells, w.0, w.1);
    var r := PopAll(w.0, w.1, CountUnset(cells));
    EvolvesTransitive(cells, w.0, r);
    r
  }

  /** The `while let Some(top) = to_propagate.pop()` loop of `propagate`
      (sudoku_board.rs:208-210). `bound` is the count of unassigned cells when the
      cascade began, which every cell still to be popped lies below. */
  function PopAll(cells: seq<Cell>, stack: seq<(nat, nat)>, bound: nat): (r: seq<Cell>)
    requires WellFormed(cells) && StackSet(cells, stack)
    requires stack != [] ==> CountUnset(cells) < bound
    ensures WellFormed(r) && Evolves(cells, r)
    decreases bound, 0, |stack|
  {
    if stack == [] then cells
    else
      var top := stack[|stack| - 1];
      var next := Cascade(cells, top.0, top.1);
      var rest := stack[..|stack| - 1];
      EvolvesCountUnset(cells, next);
      assert StackSet(next, rest) by {
        forall j | 0 <= j < |rest| ensures At(next, rest[j].0, rest[j].1).IsSet() {
          assert rest[j] == stack[j];
          assert Refines(cells[IndexAtEntry(rest[j].0, rest[j].1)], next[IndexAtEntry(rest[j].0, rest[j].1)]);
        }
      }
      var r := PopAll(next, rest, bound);
      EvolvesTransitive(cells, next, r);
      r
  }

  /** Popping the top of a non-empty stack is propagating it and then popping
      the rest. */
  lemma PopAllNext(cells: seq<Cell>, stack: seq<(nat, nat)>, bound: nat)
    requires WellFormed(cells) && StackSet(cells, stack) && stack != [] && CountUnset(cells) < bound
    ensures var top, rest := stack[|stack| - 1], stack[..|stack| - 1];
      && CountUnset(Cascade(cells, top.0, top.1)) <= CountUnset(cells)
      && StackSet(Cascade(cells, top.0, top.1), rest)
      && PopAll(cells, stack, bound) == PopAll(Cascade(cells, top.0, top.1), rest, bound)
  {
    var top, rest := stack[|stack| - 1], stack[..|stack| - 1];
    var next := Cascade(cells, top.0, top.1);
    EvolvesCountUnset(cells, next);
    forall j | 0 <= j < |rest| ensures At(next, rest[j].0, rest[j].1).IsSet() {
      assert rest[j] == stack[j];
      assert Refines(cells[IndexAtEntry(rest[j].0, rest[j].1)], next[IndexAtEntry(rest[j].0, rest[j].1)]);
    }
  }

  /** The first `row` rows of `first_pass` (sudoku_board.rs:169-177): each row's
      inner loop in turn. */
  function PassRows(cells: seq<Cell>, row: nat): (r: seq<Cell>)
    requires WellFormed(cells) && row <= ROW_COUNT
    ensures WellFormed(r) && Evolves(cells, r)
  {
    if row == 0 then cells
    else
      var prev := PassRows(cells, row - 1);
      var r := PassCols(prev, row - 1, COL_COUNT);
      EvolvesTransitive(cells, prev, r);
      r
  }

  /** The first `col` iterations of `first_pass`'s inner loop over row `row`:
      every cell found assigned is propagated. */
  function PassCols(cells: seq<Cell>, row: nat, col: nat): (r: seq<Cell>)
    requires WellFormed(cells) && row < ROW_COUNT && col <= COL_COUNT
    ensures WellFormed(r) && Evolves(cells, r)
  {
    if col == 0 then cells
    else
      var prev := PassCols(cells, row, col - 1);
      if At(prev, row, col - 1).IsSet() then
        var r := Cascade(prev, row, col - 1);
        EvolvesTransitive(cells, prev, r);
        r
      else prev
  }

  /** One more iteration of the inner loop: propagate the cell when it is
      assigned, leave the board alone otherwise. */
  lemma PassColsStep(start: seq<Cell>, prev: seq<Cell>, cells: seq<Cell>, row: nat, col: nat)
    requires WellFormed(start) && row < ROW_COUNT && col < COL_COUNT
    requires prev == PassCols(start, row, col)
    requires cells == if At(prev, row, col).IsSet() then Cascade(prev, row, col) else prev
    ensures cells == PassCols(start, row, col + 1)
  {
  }

  /** The body of the sweep of `solve` for one unassigned cell
      (sudoku_board.rs:84-138): when `Deduction` finds a digit the cell is set to
      it and propagated; otherwise nothing changes. */
  function SolveCellSpec(cells: seq<Cell>, row: nat, col: nat): (r: seq<Cell>)
    requires WellFormed(cells) && row < ROW_COUNT && col < COL_COUNT && !At(cells, row, col).IsSet()
    ensures WellFormed(r) && Evolves(cells, r)
    ensures Deduction(cells, row, col).None? ==> r == cells
    ensures Deduction(cells, row, col).Some? ==>
      && r[IndexAtEntry(row, col)] == cells[IndexAtEntry(row, col)].Set(Deduction(cells, row, col).value)
      && CountUnset(r) < CountUnset(cells)
  {
    match Deduction(cells, row, col)
    case None => cells
    case Some(d) =>
      var i := IndexAtEntry(row, col);
      var mid := cells[i := cells[i].Set(d)];
      assert Evolves(cells, mid);
      var r := Cascade(mid, row, col);
      EvolvesTransitive(cells, mid, r);
      assert Refines(mid[i], r[i]);
      assert !cells[i].IsSet() && r[i].IsSet();
      EvolvesCountUnset(cells, r);
      r
  }

  /** The first `row` rows of one sweep of `solve` (sudoku_board.rs:82-140): the
      board, and whether some cell was solved. */
  function SweepRows(cells: seq<Cell>, row: nat): (r: (seq<Cell>, bool))
    requires WellFormed(cells) && row <= ROW_COUNT
    ensures WellFormed(r.0) && Evolves(cells, r.0)
    ensures r.1 ==> CountUnset(r.0) < CountUnset(cells)
    ensures !r.1 ==> r.0 == cells
  {
    if row == 0 then (cells, false)
    else
      var prev := SweepRows(cells, row - 1);
      var r := SweepCols(prev.0, row - 1, COL_COUNT);
      EvolvesTransitive(cells, prev.0, r.0);
      EvolvesCountUnset(prev.0, r.0);
      (r.0, prev.1 || r.1)
  }

  /** The first `col` cells of row `row` in one sweep: an assigned cell is
      skipped, an unassigned one goes through `SolveCellSpec`; the flag records
      whether some cell was solved. */
  function SweepCols(cells: seq<Cell>, row: nat, col: nat): (r: (seq<Cell>, bool))
    requires WellFormed(cells) && row < ROW_COUNT && col <= COL_COUNT
    ensures WellFormed(r.0) && Evolves(cells, r.0)
    ensures r.1 ==> CountUnset(r.0) < CountUnset(cells)
    ensures !r.1 ==> r.0 == cells
  {
    if col == 0 then (cells, false)
    else
      var prev := SweepCols(cells, row, col - 1);
      if At(prev.0, row, col - 1).IsSet() then prev
      else
        var r := SolveCellSpec(prev.0, row, col - 1);
        EvolvesTransitive(cells, prev.0, r);
        EvolvesCountUnset(prev.0, r);
        (r, prev.1 || Deduction(prev.0, row, col - 1).Some?)
  }

  /** One more row of the sweep. */
  lemma SweepRowsStep(start: seq<Cell>, cells: seq<Cell>, flag: bool, next: seq<Cell>, nextFlag: bool, row: nat)
    requires WellFormed(start) && row < ROW_COUNT
    requires (cells, flag) == SweepRows(start, row)
    requires var r := SweepCols(cells, row, COL_COUNT); next == r.0 && nextFlag == (flag || r.1)
    ensures (next, nextFlag) == SweepRows(start, row + 1)
  {
  }

  /** One more cell of the sweep of a row. */
  lemma SweepColsStep(start: seq<Cell>, cells: seq<Cell>, flag: bool, next: seq<Cell>, nextFlag: bool,
                      row: nat, col: nat)
    requires WellFormed(start) && row < ROW_COUNT && col < COL_COUNT
    requires (cells, flag) == SweepCols(start, row, col)
    requires At(cells, row, col).IsSet() ==> next == cells && nextFlag == flag
    requires !At(cells, row, col).IsSet() ==>
      next == SolveCellSpec(cells, row, col) && nextFlag == (flag || Deduction(cells, row, col).Some?)
    ensures (next, nextFlag) == SweepCols(start, row, col + 1)
  {
  }

  /** The `while !self.is_solved()` loop of `solve` (sudoku_board.rs:80-145): sweep
      until the board is solved or a sweep makes no update. The flag is the value
      `solve` returns. */
  function SolveLoop(cells: seq<Cell>): (r: (seq<Cell>, bool))
    requires WellFormed(cells)
    ensures WellFormed(r.0) && Evolves(cells, r.0)
    decreases CountUnset(cells)
  {
    if Solved(cells) then (cells, true)
    else
      var s := SweepRows(cells, ROW_COUNT);
      if !s.1 then (s.0, false)
      else
        var r := SolveLoop(s.0);
        EvolvesTransitive(cells, s.0, r.0);
        r
  }

  /** `Board::solve` (sudoku_board.rs:75-150): `first_pass`, then the sweep loop.
      The board it leaves and the value it returns. */
  function SolveSpec(cells: seq<Cell>): (r: (seq<Cell>, bool))
    requires WellFormed(cells)
    ensures WellFormed(r.0) && Evolves(cells, r.0)
  {
    var p := PassRows(cells, ROW_COUNT);
    var r := SolveLoop(p);
    EvolvesTransitive(cells, p, r.0);
    r
  }
}
