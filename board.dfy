/** Model of `Board` in src/sudoku_board.rs: the 81 cells live in an array that
    the methods update in place, one cell at a time. */
module SudokuBoard {
  import opened SudokuCell
  import opened SudokuGrid
  import opened SudokuCascade

  /** What holds while `propagate(row, col)` walks the row, column and box: the
      board has only been refined, every new assignment has been pushed, and when
      the cell was already propagated nothing has happened. */
  predicate Walking(before: seq<Cell>, cells: seq<Cell>, row: nat, col: nat, stack: seq<(nat, nat)>)
    requires |before| == ENTRY_COUNT && row < ROW_COUNT && col < COL_COUNT
  {
    && WellFormed(cells) && Evolves(before, cells)
    && StackFresh(before, cells, stack)
    && (forall i | 0 <= i < ENTRY_COUNT && cells[i].IsSet() && !before[i].IsSet() ::
          (i / COL_COUNT, i % COL_COUNT) in stack)
    && (Propagated(before, row, col) ==> cells == before && stack == [])
  }

  /** What holds while `propagate(row, col)` pops its work stack: the cell is
      propagated, every new assignment is still on the stack or already
      propagated, and every elimination so far was sound and forced. */
  ghost predicate Popping(before: seq<Cell>, cells: seq<Cell>, row: nat, col: nat, stack: seq<(nat, nat)>)
    requires |before| == ENTRY_COUNT && row < ROW_COUNT && col < COL_COUNT
  {
    && WellFormed(cells) && Evolves(before, cells)
    && StackFresh(before, cells, stack)
    && Propagated(cells, row, col)
    && (forall i | 0 <= i < ENTRY_COUNT && cells[i].IsSet() && !before[i].IsSet() ::
          (i / COL_COUNT, i % COL_COUNT) in stack || Propagated(cells, i / COL_COUNT, i % COL_COUNT))
    && (Propagated(before, row, col) ==> cells == before && stack == [])
    && KeepsSolutions(before, cells) && Forced(before, cells)
  }

  /** Once the three walks have propagated the cell, popping can start. */
  lemma StartPopping(before: seq<Cell>, cells: seq<Cell>, row: nat, col: nat, stack: seq<(nat, nat)>)
    requires |before| == ENTRY_COUNT && row < ROW_COUNT && col < COL_COUNT
    requires Walking(before, cells, row, col, stack) && Propagated(cells, row, col)
    requires KeepsSolutions(before, cells) && Forced(before, cells)
    ensures Popping(before, cells, row, col, stack)
  {
  }

  /** The top of a non-empty work stack is an assigned cell that was unassigned
      when the cascade began, so fewer cells are unassigned than then. */
  lemma PopTop(before: seq<Cell>, cells: seq<Cell>, row: nat, col: nat, stack: seq<(nat, nat)>)
    requires |before| == ENTRY_COUNT && row < ROW_COUNT && col < COL_COUNT && stack != []
    requires Popping(before, cells, row, col, stack)
    ensures var top := stack[|stack| - 1];
      && top.0 < ROW_COUNT && top.1 < COL_COUNT && At(cells, top.0, top.1).IsSet()
      && CountUnset(cells) < CountUnset(before)
  {
    var top := stack[|stack| - 1];
    assert !before[IndexAtEntry(top.0, top.1)].IsSet() && cells[IndexAtEntry(top.0, top.1)].IsSet();
    EvolvesCountUnset(before, cells);
  }

  /** When the work stack is empty, the cascade has done all that `propagate`
      promises. */
  lemma EndPopping(before: seq<Cell>, cells: seq<Cell>, row: nat, col: nat)
    requires |before| == ENTRY_COUNT && row < ROW_COUNT && col < COL_COUNT
    requires Popping(before, cells, row, col, [])
    ensures WellFormed(cells) && Evolves(before, cells) && Propagated(cells, row, col)
    ensures forall i | 0 <= i < ENTRY_COUNT && cells[i].IsSet() && !before[i].IsSet() ::
      Propagated(cells, i / COL_COUNT, i % COL_COUNT)
    ensures Propagated(before, row, col) ==> cells == before
    ensures KeepsSolutions(before, cells) && Forced(before, cells)
  {
  }

  /** One `propagate_apply` with the digit of an assigned cell on a cell of its
      walk keeps every solution, and its elimination is forced. */
  lemma ApplySound(prev: seq<Cell>, cells: seq<Cell>, row: nat, col: nat, unit: Unit, k: nat)
    requires WellFormed(prev) && row < ROW_COUNT && col < COL_COUNT && k < 9
    requires At(prev, row, col).IsSet()
    requires var i := VisitedIndex(unit, row, col, k);
      cells == prev[i := Eliminated(prev[i], At(prev, row, col).c)]
    ensures KeepsSolutions(prev, cells)
    ensures forall start | Evolves(start, prev) && Forced(start, prev) :: Forced(start, cells)
  {
    VisitedSharesUnit(unit, row, col, k);
    EliminationSound(prev, VisitedIndex(unit, row, col, k), IndexAtEntry(row, col));
    forall start | Evolves(start, prev) && Forced(start, prev) ensures Forced(start, cells) {
      ForcedStep(start, prev, VisitedIndex(unit, row, col, k), IndexAtEntry(row, col));
    }
  }

  /** After one more step of a walk with digit `chr`, still only `chr` has been
      removed and only cells on the walk have changed. */
  lemma FrameStep(start: seq<Cell>, prev: seq<Cell>, cells: seq<Cell>, unit: Unit, row: nat, col: nat,
                  k: nat, chr: char)
    requires WellFormed(start) && WellFormed(prev) && row < ROW_COUNT && col < COL_COUNT && k < 9 && IsDigit(chr)
    requires forall i | 0 <= i < ENTRY_COUNT :: start[i].opt.bits - {Pos(chr)} <= prev[i].opt.bits
    requires forall i | 0 <= i < ENTRY_COUNT && !OnWalk(unit, row, col, k, i) :: prev[i] == start[i]
    requires var t := VisitedIndex(unit, row, col, k); cells == prev[t := Eliminated(prev[t], chr)]
    ensures forall i | 0 <= i < ENTRY_COUNT :: start[i].opt.bits - {Pos(chr)} <= cells[i].opt.bits
    ensures forall i | 0 <= i < ENTRY_COUNT && !OnWalk(unit, row, col, k + 1, i) :: cells[i] == start[i]
  {
    var t := VisitedIndex(unit, row, col, k);
    forall i | 0 <= i < ENTRY_COUNT && !OnWalk(unit, row, col, k + 1, i) ensures cells[i] == start[i] {
      assert i != t && !OnWalk(unit, row, col, k, i);
    }
  }

  /** One more `propagate_apply` of a walk, and the push it may make, is one more
      step of `ApplyWalk`. */
  lemma ApplyWalkNext(start: seq<Cell>, prev: seq<Cell>, cells: seq<Cell>, unit: Unit, row: nat, col: nat,
                      chr: char, k: nat, stack: seq<(nat, nat)>, prevPushed: seq<(nat, nat)>, pushed: seq<(nat, nat)>)
    requires WellFormed(start) && row < ROW_COUNT && col < COL_COUNT && k < 9 && IsDigit(chr)
    requires var w := ApplyWalk(start, unit, row, col, chr, k); prev == w.0 && prevPushed == stack + w.1
    requires var i := VisitedIndex(unit, row, col, k);
      && cells == prev[i := Eliminated(prev[i], chr)]
      && pushed == if !prev[i].IsSet() && cells[i].IsSet() then prevPushed + [Visited(unit, row, col, k)] else prevPushed
    ensures var w := ApplyWalk(start, unit, row, col, chr, k + 1); cells == w.0 && pushed == stack + w.1
  {
    var w := ApplyWalk(start, unit, row, col, chr, k);
    var i := VisitedIndex(unit, row, col, k);
    var added := if !prev[i].IsSet() && cells[i].IsSet() then [Visited(unit, row, col, k)] else [];
    assert stack + w.1 + added == stack + (w.1 + added);
  }

  /** Every cell a walk assigns is on the stack it builds. */
  lemma {:induction false} ApplyWalkPushes(cells: seq<Cell>, unit: Unit, row: nat, col: nat, chr: char, n: nat)
    requires WellFormed(cells) && row < ROW_COUNT && col < COL_COUNT && n <= 9 && IsDigit(chr)
    ensures var w := ApplyWalk(cells, unit, row, col, chr, n);
      forall i | 0 <= i < ENTRY_COUNT && w.0[i].IsSet() && !cells[i].IsSet() :: (i / COL_COUNT, i % COL_COUNT) in w.1
  {
    if n > 0 {
      ApplyWalkPushes(cells, unit, row, col, chr, n - 1);
      var prev := ApplyWalk(cells, unit, row, col, chr, n - 1);
      var w := ApplyWalk(cells, unit, row, col, chr, n);
      var t := VisitedIndex(unit, row, col, n - 1);
      forall i | 0 <= i < ENTRY_COUNT && w.0[i].IsSet() && !cells[i].IsSet()
        ensures (i / COL_COUNT, i % COL_COUNT) in w.1
      {
        if i == t && !prev.0[t].IsSet() {
          assert w.1 == prev.1 + [Visited(unit, row, col, n - 1)];
        } else {
          assert (i / COL_COUNT, i % COL_COUNT) in prev.1;
        }
      }
    }
  }

  /** A walk with the digit of a cell that is already propagated changes nothing
      and pushes nothing. */
  lemma {:induction false} ApplyWalkIdle(cells: seq<Cell>, unit: Unit, row: nat, col: nat, n: nat)
    requires WellFormed(cells) && row < ROW_COUNT && col < COL_COUNT && n <= 9 && Propagated(cells, row, col)
    ensures ApplyWalk(cells, unit, row, col, At(cells, row, col).c, n) == (cells, [])
  {
    if n > 0 {
      var chr := At(cells, row, col).c;
      ApplyWalkIdle(cells, unit, row, col, n - 1);
      var t := VisitedIndex(unit, row, col, n - 1);
      VisitedSharesUnit(unit, row, col, n - 1);
      assert Excludes(cells, t, chr);
      EliminatedExcluded(cells[t], chr);
      assert cells[t := Eliminated(cells[t], chr)] == cells;
      var w := ApplyWalk(cells, unit, row, col, chr, n);
      assert w.0 == cells;
      assert w.1 == [];
    }
  }

  /** A walk with the digit of an assigned cell keeps the walking invariant,
      pushing the cells it assigns. */
  lemma ApplyWalkWalking(before: seq<Cell>, cells: seq<Cell>, unit: Unit, row: nat, col: nat, stack: seq<(nat, nat)>)
    requires row < ROW_COUNT && col < COL_COUNT
    requires |before| == ENTRY_COUNT && At(before, row, col).IsSet()
    requires Walking(before, cells, row, col, stack)
    ensures var w := ApplyWalk(cells, unit, row, col, At(before, row, col).c, 9);
      Walking(before, w.0, row, col, stack + w.1)
  {
    var w := ApplyWalk(cells, unit, row, col, At(before, row, col).c, 9);
    ApplyWalkPushes(cells, unit, row, col, At(before, row, col).c, 9);
    ApplyWalkEvolves(cells, unit, row, col, At(before, row, col).c, 9);
    EvolvesTransitive(before, cells, w.0);
    StackFreshAppend(before, cells, w.0, stack, w.1);
    if Propagated(before, row, col) {
      ApplyWalkIdle(cells, unit, row, col, 9);
      assert stack + w.1 == [];
    }
    forall i | 0 <= i < ENTRY_COUNT && w.0[i].IsSet() && !before[i].IsSet()
      ensures (i / COL_COUNT, i % COL_COUNT) in stack + w.1
    {
      if cells[i].IsSet() {
        assert (i / COL_COUNT, i % COL_COUNT) in stack;
      } else {
        assert (i / COL_COUNT, i % COL_COUNT) in w.1;
      }
    }
  }

  /** The first n steps of a walk with `chr` leave each of the first n cells it
      visits assigned or without `chr`. */
  lemma {:induction false} ApplyWalkExcludes(cells: seq<Cell>, unit: Unit, row: nat, col: nat, chr: char, n: nat)
    requires WellFormed(cells) && row < ROW_COUNT && col < COL_COUNT && n <= 9 && IsDigit(chr)
    ensures ExcludedUpTo(ApplyWalk(cells, unit, row, col, chr, n).0, unit, row, col, n, chr)
  {
    if n > 0 {
      ApplyWalkExcludes(cells, unit, row, col, chr, n - 1);
      var prev := ApplyWalk(cells, unit, row, col, chr, n - 1);
      var i := VisitedIndex(unit, row, col, n - 1);
      ExcludedAfterEliminated(prev.0, unit, row, col, n - 1, chr);
    }
  }

  /** A walk with the digit of an assigned cell keeps every solution and makes
      only forced eliminations. */
  lemma {:induction false} ApplyWalkSound(cells: seq<Cell>, unit: Unit, row: nat, col: nat, n: nat)
    requires WellFormed(cells) && row < ROW_COUNT && col < COL_COUNT && n <= 9 && At(cells, row, col).IsSet()
    ensures var w := ApplyWalk(cells, unit, row, col, At(cells, row, col).c, n);
      KeepsSolutions(cells, w.0) && Forced(cells, w.0)
  {
    var chr := At(cells, row, col).c;
    if n > 0 {
      ApplyWalkSound(cells, unit, row, col, n - 1);
      var prev := ApplyWalk(cells, unit, row, col, chr, n - 1);
      var next := ApplyWalk(cells, unit, row, col, chr, n).0;
      ApplyWalkEvolves(cells, unit, row, col, chr, n - 1);
      assert Refines(cells[IndexAtEntry(row, col)], prev.0[IndexAtEntry(row, col)]);
      ApplySound(prev.0, next, row, col, unit, n - 1);
      KeepsSolutionsTransitive(cells, prev.0, next);
    }
  }

  /** A walk with `chr` removes nothing but `chr` and changes only the cells it
      has visited. */
  lemma {:induction false} ApplyWalkFrame(cells: seq<Cell>, unit: Unit, row: nat, col: nat, chr: char, n: nat)
    requires WellFormed(cells) && row < ROW_COUNT && col < COL_COUNT && n <= 9 && IsDigit(chr)
    ensures var w := ApplyWalk(cells, unit, row, col, chr, n);
      && (forall i | 0 <= i < ENTRY_COUNT :: cells[i].opt.bits - {Pos(chr)} <= w.0[i].opt.bits)
      && (forall i | 0 <= i < ENTRY_COUNT && !OnWalk(unit, row, col, n, i) :: w.0[i] == cells[i])
  {
    if n > 0 {
      ApplyWalkFrame(cells, unit, row, col, chr, n - 1);
      FrameStep(cells, ApplyWalk(cells, unit, row, col, chr, n - 1).0, ApplyWalk(cells, unit, row, col, chr, n).0,
                unit, row, col, n - 1, chr);
    }
  }

  /** The three walks of `propagate` keep the walking invariant, starting from
      an empty stack. */
  lemma WalksWalking(cells: seq<Cell>, row: nat, col: nat)
    requires WellFormed(cells) && row < ROW_COUNT && col < COL_COUNT && At(cells, row, col).IsSet()
    ensures var w := Walks(cells, row, col); Walking(cells, w.0, row, col, w.1)
  {
    var chr := At(cells, row, col).c;
    var w1 := ApplyWalk(cells, Row, row, col, chr, 9);
    var w2 := ApplyWalk(w1.0, Column, row, col, chr, 9);
    assert Walking(cells, cells, row, col, []);
    ApplyWalkWalking(cells, cells, Row, row, col, []);
    assert [] + w1.1 == w1.1;
    ApplyWalkWalking(cells, w1.0, Column, row, col, w1.1);
    ApplyWalkWalking(cells, w2.0, Box, row, col, w1.1 + w2.1);
  }

  /** After the three walks the cell is propagated. */
  lemma WalksPropagated(cells: seq<Cell>, row: nat, col: nat)
    requires WellFormed(cells) && row < ROW_COUNT && col < COL_COUNT && At(cells, row, col).IsSet()
    ensures Propagated(Walks(cells, row, col).0, row, col)
  {
    var chr := At(cells, row, col).c;
    var w1 := ApplyWalk(cells, Row, row, col, chr, 9);
    var w2 := ApplyWalk(w1.0, Column, row, col, chr, 9);
    var w3 := ApplyWalk(w2.0, Box, row, col, chr, 9);
    ApplyWalkExcludes(cells, Row, row, col, chr, 9);
    ApplyWalkExcludes(w1.0, Column, row, col, chr, 9);
    ApplyWalkExcludes(w2.0, Box, row, col, chr, 9);
    ApplyWalkEvolves(w1.0, Column, row, col, chr, 9);
    ApplyWalkEvolves(w2.0, Box, row, col, chr, 9);
    WalksEvolves(cells, row, col);
    ExcludedPersists(w1.0, w2.0, Row, row, col, 9, chr);
    ExcludedPersists(w2.0, w3.0, Row, row, col, 9, chr);
    ExcludedPersists(w2.0, w3.0, Column, row, col, 9, chr);
    assert Refines(cells[IndexAtEntry(row, col)], w3.0[IndexAtEntry(row, col)]);
    WalksPropagate(w3.0, row, col);
  }

  /** The three walks keep every solution and make only forced eliminations. */
  lemma WalksSound(cells: seq<Cell>, row: nat, col: nat)
    requires WellFormed(cells) && row < ROW_COUNT && col < COL_COUNT && At(cells, row, col).IsSet()
    ensures var w := Walks(cells, row, col); KeepsSolutions(cells, w.0) && Forced(cells, w.0)
  {
    var chr := At(cells, row, col).c;
    var w1 := ApplyWalk(cells, Row, row, col, chr, 9);
    var w2 := ApplyWalk(w1.0, Column, row, col, chr, 9);
    var w3 := ApplyWalk(w2.0, Box, row, col, chr, 9);
    ApplyWalkEvolves(cells, Row, row, col, chr, 9);
    ApplyWalkEvolves(w1.0, Column, row, col, chr, 9);
    ApplyWalkEvolves(w2.0, Box, row, col, chr, 9);
    ApplyWalkSound(cells, Row, row, col, 9);
    assert Refines(cells[IndexAtEntry(row, col)], w1.0[IndexAtEntry(row, col)]);
    ApplyWalkSound(w1.0, Column, row, col, 9);
    assert Refines(w1.0[IndexAtEntry(row, col)], w2.0[IndexAtEntry(row, col)]);
    ApplyWalkSound(w2.0, Box, row, col, 9);
    CascadeTransitive(cells, w1.0, w2.0);
    EvolvesTransitive(cells, w1.0, w2.0);
    CascadeTransitive(cells, w2.0, w3.0);
  }

  /** The three walks remove nothing but the cell's digit, and change no cell
      outside its row, column and box. */
  lemma WalksFrame(cells: seq<Cell>, row: nat, col: nat)
    requires WellFormed(cells) && row < ROW_COUNT && col < COL_COUNT && At(cells, row, col).IsSet()
    ensures var w := Walks(cells, row, col); var p := Pos(At(cells, row, col).c);
      && (forall i | 0 <= i < ENTRY_COUNT :: cells[i].opt.bits - {p} <= w.0[i].opt.bits)
      && (forall i | 0 <= i < ENTRY_COUNT && !SharesUnit(row, col, i / COL_COUNT, i % COL_COUNT) :: w.0[i] == cells[i])
  {
    var chr := At(cells, row, col).c;
    var w1 := ApplyWalk(cells, Row, row, col, chr, 9);
    var w2 := ApplyWalk(w1.0, Column, row, col, chr, 9);
    var w3 := ApplyWalk(w2.0, Box, row, col, chr, 9);
    ApplyWalkFrame(cells, Row, row, col, chr, 9);
    ApplyWalkFrame(w1.0, Column, row, col, chr, 9);
    ApplyWalkFrame(w2.0, Box, row, col, chr, 9);
    forall i | 0 <= i < ENTRY_COUNT && !SharesUnit(row, col, i / COL_COUNT, i % COL_COUNT) ensures w3.0[i] == cells[i] {
      OffWalk(Row, row, col, i);
      OffWalk(Column, row, col, i);
      OffWalk(Box, row, col, i);
    }
  }

  /** Popping the top of the stack and propagating it keeps the popping invariant. */
  lemma PopStep(before: seq<Cell>, prev: seq<Cell>, cells: seq<Cell>, row: nat, col: nat,
                stack: seq<(nat, nat)>)
    requires row < ROW_COUNT && col < COL_COUNT && stack != []
    requires |before| == ENTRY_COUNT
    requires Popping(before, prev, row, col, stack)
    requires WellFormed(cells) && Evolves(prev, cells)
    requires KeepsSolutions(prev, cells) && Forced(prev, cells)
    requires var top := stack[|stack| - 1]; Propagated(cells, top.0, top.1)
    requires forall i | 0 <= i < ENTRY_COUNT && cells[i].IsSet() && !prev[i].IsSet() ::
      Propagated(cells, i / COL_COUNT, i % COL_COUNT)
    ensures Popping(before, cells, row, col, stack[..|stack| - 1])
  {
    var rest := stack[..|stack| - 1];
    EvolvesTransitive(before, prev, cells);
    CascadeTransitive(before, prev, cells);
    forall j | 0 <= j < |rest| ensures At(cells, rest[j].0, rest[j].1).IsSet() {
      assert rest[j] == stack[j];
      assert Refines(At(prev, rest[j].0, rest[j].1), At(cells, rest[j].0, rest[j].1));
    }
    PropagatedPersists(prev, cells, row, col);
    forall i | 0 <= i < ENTRY_COUNT && cells[i].IsSet() && !before[i].IsSet()
      ensures (i / COL_COUNT, i % COL_COUNT) in rest || Propagated(cells, i / COL_COUNT, i % COL_COUNT)
    {
      if prev[i].IsSet() {
        IndexAtEntryOnto(i);
        if (i / COL_COUNT, i % COL_COUNT) !in rest
           && (i / COL_COUNT, i % COL_COUNT) != stack[|stack| - 1] {
          PropagatedPersists(prev, cells, i / COL_COUNT, i % COL_COUNT);
        }
      }
    }
  }

  /** After `propagate(row, col)` every cell that was propagated before it, and
      every cell up to (row, col) in row-major order, is propagated. */
  lemma PropagateKeeps(before: seq<Cell>, prev: seq<Cell>, cells: seq<Cell>, row: nat, col: nat)
    requires row < ROW_COUNT && col < COL_COUNT
    requires Evolves(before, prev) && Evolves(prev, cells)
    requires forall i | 0 <= i < ENTRY_COUNT && prev[i].IsSet() && (i < row * COL_COUNT + col || !before[i].IsSet()) ::
      Propagated(prev, i / COL_COUNT, i % COL_COUNT)
    requires Propagated(cells, row, col)
    requires forall i | 0 <= i < ENTRY_COUNT && cells[i].IsSet() && !prev[i].IsSet() ::
      Propagated(cells, i / COL_COUNT, i % COL_COUNT)
    ensures Evolves(before, cells)
    ensures forall i | 0 <= i < ENTRY_COUNT && cells[i].IsSet() && (i < row * COL_COUNT + col + 1 || !before[i].IsSet()) ::
      Propagated(cells, i / COL_COUNT, i % COL_COUNT)
  {
    EvolvesTransitive(before, prev, cells);
    forall i | 0 <= i < ENTRY_COUNT && cells[i].IsSet() && (i < row * COL_COUNT + col + 1 || !before[i].IsSet())
      ensures Propagated(cells, i / COL_COUNT, i % COL_COUNT)
    {
      if prev[i].IsSet() && i != IndexAtEntry(row, col) {
        assert i < row * COL_COUNT + col || !before[i].IsSet();
        PropagatedPersists(prev, cells, i / COL_COUNT, i % COL_COUNT);
      }
    }
  }

  /** What `first_pass` has achieved after its first n cells: the board it
      started from has only been refined, soundly, every cell assigned by then
      among the first n or since is propagated. */
  ghost predicate Passing(before: seq<Cell>, cells: seq<Cell>, n: nat)
    requires WellFormed(before) && n <= ENTRY_COUNT
  {
    && WellFormed(cells) && Evolves(before, cells)
    && KeepsSolutions(before, cells) && Forced(before, cells)
    && (forall i | 0 <= i < ENTRY_COUNT && cells[i].IsSet() && (i < n || !before[i].IsSet()) ::
          Propagated(cells, i / COL_COUNT, i % COL_COUNT))
  }

  /** One iteration of `first_pass`: `propagate(row, col)` when the cell is
      assigned, nothing otherwise. */
  lemma PassStep(before: seq<Cell>, prev: seq<Cell>, cells: seq<Cell>, row: nat, col: nat)
    requires WellFormed(before) && row < ROW_COUNT && col < COL_COUNT
    requires Passing(before, prev, IndexAtEntry(row, col))
    requires At(prev, row, col).IsSet() ==>
      && WellFormed(cells) && Evolves(prev, cells) && Propagated(cells, row, col)
      && (forall i | 0 <= i < ENTRY_COUNT && cells[i].IsSet() && !prev[i].IsSet() ::
            Propagated(cells, i / COL_COUNT, i % COL_COUNT))
      && KeepsSolutions(prev, cells) && Forced(prev, cells)
    requires !At(prev, row, col).IsSet() ==> cells == prev
    ensures Passing(before, cells, IndexAtEntry(row, col) + 1)
  {
    if At(prev, row, col).IsSet() {
      PropagateKeeps(before, prev, cells, row, col);
      CascadeTransitive(before, prev, cells);
    }
  }

  /** What a sweep of `solve` has achieved after its first n cells: the board
      it started from has only been refined, soundly; with no update yet it is
      unchanged and none of those cells admits a deduction, with one it has fewer
      unassigned cells. */
  ghost predicate Sweeping(before: seq<Cell>, cells: seq<Cell>, flag: bool, n: nat)
    requires WellFormed(before) && n <= ENTRY_COUNT
  {
    && WellFormed(cells) && Evolves(before, cells) && FullyPropagated(cells)
    && KeepsSolutions(before, cells) && Justified(before, cells)
    && (flag ==> CountUnset(cells) < CountUnset(before))
    && (!flag ==> cells == before && NoDeductionBelow(cells, n))
  }

  /** One iteration of the sweep: an assigned cell is skipped, an unassigned one
      goes through the deductions (and the cascade when one succeeds). */
  lemma SweepStep(before: seq<Cell>, prev: seq<Cell>, prevFlag: bool, cells: seq<Cell>, flag: bool,
                  row: nat, col: nat)
    requires WellFormed(before) && row < ROW_COUNT && col < COL_COUNT
    requires Sweeping(before, prev, prevFlag, IndexAtEntry(row, col))
    requires At(prev, row, col).IsSet() ==> cells == prev && flag == prevFlag
    requires !At(prev, row, col).IsSet() ==>
      && WellFormed(cells) && Evolves(prev, cells) && FullyPropagated(cells)
      && flag == (prevFlag || Deduction(prev, row, col).Some?)
      && (Deduction(prev, row, col).Some? ==> CountUnset(cells) < CountUnset(prev))
      && (Deduction(prev, row, col).None? ==> cells == prev)
      && KeepsSolutions(prev, cells) && Justified(prev, cells)
    ensures Sweeping(before, cells, flag, IndexAtEntry(row, col) + 1)
  {
    if !At(prev, row, col).IsSet() {
      SoundTransitive(before, prev, cells);
      EvolvesCountUnset(prev, cells);
    }
    if !flag {
      NoDeductionStep(cells, row, col);
    }
  }

  /** A deduction followed by the cascade it starts keeps every solution and
      makes only justified eliminations. */
  lemma DeduceSound(prev: seq<Cell>, mid: seq<Cell>, cells: seq<Cell>, row: nat, col: nat)
    requires row < ROW_COUNT && col < COL_COUNT
    requires WellFormed(prev) && FullyPropagated(prev) && !At(prev, row, col).IsSet()
    requires Deduction(prev, row, col).Some?
    requires var i := IndexAtEntry(row, col); mid == prev[i := prev[i].Set(Deduction(prev, row, col).value)]
    requires Evolves(prev, mid) && Evolves(mid, cells) && KeepsSolutions(mid, cells) && Forced(mid, cells)
    ensures KeepsSolutions(prev, cells) && Justified(prev, cells)
  {
    DeductionSound(prev, row, col);
    KeepsSolutionsTransitive(prev, mid, cells);
    AssignJustified(prev, mid, IndexAtEntry(row, col));
    ForcedJustified(mid, cells);
    JustifiedTransitive(prev, mid, cells);
  }

  /** Assigning an unassigned cell a candidate of its own and propagating it
      keeps every assigned cell propagated, and one fewer cell is unassigned. */
  lemma AssignKeeps(before: seq<Cell>, prev: seq<Cell>, cells: seq<Cell>, row: nat, col: nat)
    requires row < ROW_COUNT && col < COL_COUNT && |before| == ENTRY_COUNT
    requires FullyPropagated(before) && !At(before, row, col).IsSet()
    requires Evolves(before, prev) && At(prev, row, col).IsSet()
    requires prev == before[IndexAtEntry(row, col) := At(prev, row, col)]
    requires Evolves(prev, cells) && Propagated(cells, row, col)
    requires forall i | 0 <= i < ENTRY_COUNT && cells[i].IsSet() && !prev[i].IsSet() ::
      Propagated(cells, i / COL_COUNT, i % COL_COUNT)
    ensures Evolves(before, cells) && FullyPropagated(cells)
    ensures CountUnset(cells) < CountUnset(before)
  {
    var j := IndexAtEntry(row, col);
    EvolvesTransitive(before, prev, cells);
    forall i | 0 <= i < ENTRY_COUNT && cells[i].IsSet()
      ensures Propagated(cells, i / COL_COUNT, i % COL_COUNT)
    {
      if prev[i].IsSet() && i != j {
        assert before[i] == prev[i];
        PropagatedPersists(before, cells, i / COL_COUNT, i % COL_COUNT);
      }
    }
    assert !before[j].IsSet() && cells[j].IsSet();
    EvolvesCountUnset(before, cells);
  }

  class Board {
    /** `entries: [Cell; 81]`, in row-major order. */
    const entries: array<Cell>

    /** The array holds 81 cells, each keeping the cell invariant. */
    ghost predicate Valid()
      reads this, entries
    {
      entries.Length == ENTRY_COUNT && WellFormed(entries[..])
    }

    /** `Board::new`: 81 cleared cells. */
    constructor()
      ensures Valid() && fresh(entries)
      ensures forall i | 0 <= i < ENTRY_COUNT :: entries[i] == Cell.New()
    {
      entries := new Cell[ENTRY_COUNT](_ => Cell.New());
    }

    /** `entry(row, col)`: a copy of the cell at `index_at_entry(row, col)`. */
    function Entry(row: nat, col: nat): (r: Cell)
      requires entries.Length == ENTRY_COUNT && row < ROW_COUNT && col < COL_COUNT
      reads this, entries
      ensures r == At(entries[..], row, col)
    {
      entries[IndexAtEntry(row, col)]
    }

    /** `Board::clear`: every cell back to unassigned with the full mask. */
    method Clear()
      requires entries.Length == ENTRY_COUNT
      modifies entries
      ensures Valid()
      ensures forall i | 0 <= i < ENTRY_COUNT :: entries[i] == Cell.New()
    {
      for index := 0 to ENTRY_COUNT
        invariant forall i | 0 <= i < index :: entries[i] == Cell.New()
      {
        entries[index] := entries[index].Clear();
      }
    }

    /** `Board::is_solved`: true exactly when every cell is assigned. */
    method IsSolved() returns (result: bool)
      requires entries.Length == ENTRY_COUNT
      ensures result <==> Solved(entries[..])
    {
      result := true;
      for index := 0 to ENTRY_COUNT
        invariant result && forall i | 0 <= i < index :: entries[i].IsSet()
      {
        if !entries[index].IsSet() {
          result := false;
          break;
        }
      }
    }

    /** The scanning part of `Board::load`, over the text already read from the
        file: the board is cleared, then every digit assigns the cell under the
        cursor and advances it, every `*` advances it, and every other character is
        skipped; scanning stops once the cursor reaches 81. The result is false
        exactly when fewer than 81 cells were visited, and the digits read so far
        stay on the board even then. */
    method Load(text: seq<char>) returns (result: bool)
      requires entries.Length == ENTRY_COUNT
      modifies entries
      ensures Valid()
      ensures entries[..] == Loaded(Tokens(text))
      ensures result <==> |Tokens(text)| >= ENTRY_COUNT
    {
      Clear();
      result := true;
      var boardIndex: nat := 0;
      ghost var tokens: seq<char> := [];
      assert text[..0] == [];
      for t := 0 to |text|
        invariant tokens == Tokens(text[..t])
        invariant boardIndex == |tokens| < ENTRY_COUNT
        invariant forall i | 0 <= i < ENTRY_COUNT :: entries[i] == LoadedCell(tokens, i)
      {
        var c := text[t];
        TokensStep(text, t);
        if IsToken(c) {
          LoadedPush(tokens, c);
          tokens := tokens + [c];
        }
        if '1' <= c <= '9' {
          entries[boardIndex] := entries[boardIndex].Set(c);
          boardIndex := boardIndex + 1;
        } else if c == '*' {
          boardIndex := boardIndex + 1;
        }
        if boardIndex >= ENTRY_COUNT {
          TokensPrefix(text, t + 1);
          LoadedPrefix(tokens, Tokens(text));
          assert entries[..] == Loaded(Tokens(text));
          break;
        }
      }
      if boardIndex < ENTRY_COUNT {
        assert text[..|text|] == text;
        assert entries[..] == Loaded(Tokens(text));
        result := false;
      }
    }

    /** `propagate_apply(row, col, chr)`: an assigned cell is left alone; an
        unassigned one loses the candidate `chr` and, when one candidate is left,
        is assigned it. The result says whether the cell became assigned. No other
        cell changes. */
    method PropagateApply(row: nat, col: nat, chr: char) returns (result: bool)
      requires Valid() && row < ROW_COUNT && col < COL_COUNT && IsDigit(chr)
      modifies entries
      ensures Valid() && Evolves(old(entries[..]), entries[..])
      ensures var i := IndexAtEntry(row, col);
        && entries[..] == old(entries[..])[i := Eliminated(old(entries[..])[i], chr)]
        && (result <==> !old(entries[..])[i].IsSet() && entries[..][i].IsSet())
        && Excludes(entries[..], i, chr)
        && (Excludes(old(entries[..]), i, chr) ==> !result && entries[..] == old(entries[..]))
    {
      ghost var cells := entries[..];
      var i := IndexAtEntry(row, col);
      result := false;
      if !entries[i].IsSet() {
        ghost var before := entries[i];
        assert before == cells[i] && before.Consistent();
        entries[i] := entries[i].RemoveOption(chr);
        if !before.opt.Has(chr) {
          assert entries[i].opt.bits == before.opt.bits;
          assert entries[i] == before;
        }
        if entries[i].HasOneOption() {
          entries[i] := entries[i].ApplyOption();
          result := true;
        }
      }
      assert entries[..] == cells[i := Eliminated(cells[i], chr)];
      EvolvesEliminated(cells, i, chr);
    }

    /** One walk of `propagate`: `propagate_apply` with `chr` on the nine cells of
        the row (sudoku_board.rs:184-188), the column (191-195) or the box
        (198-206) in the order of `Visited`, pushing every cell it assigns. */
    method ApplyAlong(unit: Unit, row: nat, col: nat, chr: char, stack: seq<(nat, nat)>)
      returns (pushed: seq<(nat, nat)>)
      requires Valid() && row < ROW_COUNT && col < COL_COUNT
      requires At(entries[..], row, col).IsSet() && chr == At(entries[..], row, col).c
      modifies entries
      ensures var w := ApplyWalk(old(entries[..]), unit, row, col, chr, 9); entries[..] == w.0 && pushed == stack + w.1
    {
      pushed := stack;
      for k := 0 to 9
        invariant var w := ApplyWalk(old(entries[..]), unit, row, col, chr, k); entries[..] == w.0 && pushed == stack + w.1
      {
        ghost var prev := entries[..];
        ghost var prevPushed := pushed;
        var rc := Visited(unit, row, col, k);
        var applied := PropagateApply(rc.0, rc.1, chr);
        if applied {
          pushed := pushed + [rc];
        }
        ApplyWalkNext(old(entries[..]), prev, entries[..], unit, row, col, chr, k, stack, prevPushed, pushed);
      }
    }

    /** The three walks of `propagate` (sudoku_board.rs:183-206): afterwards the
        cell is propagated and every cell they assigned is on the work stack. */
    method ApplyToUnits(row: nat, col: nat, chr: char) returns (toPropagate: seq<(nat, nat)>)
      requires Valid() && row < ROW_COUNT && col < COL_COUNT
      requires At(entries[..], row, col).IsSet() && chr == At(entries[..], row, col).c
      modifies entries
      ensures Walking(old(entries[..]), entries[..], row, col, toPropagate)
      ensures Propagated(entries[..], row, col)
      ensures KeepsSolutions(old(entries[..]), entries[..]) && Forced(old(entries[..]), entries[..])
      ensures forall i | 0 <= i < ENTRY_COUNT :: old(entries[..])[i].opt.bits - {Pos(chr)} <= entries[..][i].opt.bits
      ensures forall i | 0 <= i < ENTRY_COUNT && !SharesUnit(row, col, i / COL_COUNT, i % COL_COUNT) ::
        entries[..][i] == old(entries[..])[i]
      ensures entries[..] == Walks(old(entries[..]), row, col).0 && toPropagate == Walks(old(entries[..]), row, col).1
    {
      ghost var before := entries[..];
      toPropagate := [];
      toPropagate := ApplyAlong(Row, row, col, chr, toPropagate);
      ApplyWalkKeepsAssigned(before, Row, row, col, chr, IndexAtEntry(row, col));
      assert toPropagate == ApplyWalk(before, Row, row, col, chr, 9).1;
      ghost var afterRow := entries[..];
      toPropagate := ApplyAlong(Column, row, col, chr, toPropagate);
      ApplyWalkKeepsAssigned(afterRow, Column, row, col, chr, IndexAtEntry(row, col));
      toPropagate := ApplyAlong(Box, row, col, chr, toPropagate);
      WalksWalking(before, row, col);
      WalksPropagated(before, row, col);
      WalksSound(before, row, col);
      WalksFrame(before, row, col);
    }

    /** `propagate(row, col)` for an assigned cell: its digit is removed from every
        cell of its row, column and box; a cell left with one candidate is assigned
        it and propagated in turn. On return the cell and every cell the cascade
        assigned are propagated, the board has only been refined, and a cell that
        was already propagated leaves the board unchanged. The recursion ends
        because each recursive call follows a fresh assignment. */
    method Propagate(row: nat, col: nat)
      requires Valid() && row < ROW_COUNT && col < COL_COUNT && At(entries[..], row, col).IsSet()
      modifies entries
      decreases CountUnset(entries[..])
      ensures Valid() && Evolves(old(entries[..]), entries[..])
      ensures Propagated(entries[..], row, col)
      ensures forall i | 0 <= i < ENTRY_COUNT && entries[..][i].IsSet() && !old(entries[..])[i].IsSet() ::
        Propagated(entries[..], i / COL_COUNT, i % COL_COUNT)
      ensures Propagated(old(entries[..]), row, col) ==> entries[..] == old(entries[..])
      ensures KeepsSolutions(old(entries[..]), entries[..]) && Forced(old(entries[..]), entries[..])
      ensures entries[..] == Cascade(old(entries[..]), row, col)
    {
      ghost var before := entries[..];
      var chr := Entry(row, col).c;
      var toPropagate := ApplyToUnits(row, col, chr);
      StartPopping(before, entries[..], row, col, toPropagate);
      StackFreshCount(before, entries[..], toPropagate);

      while toPropagate != []
        invariant entries.Length == ENTRY_COUNT && Popping(before, entries[..], row, col, toPropagate)
        invariant StackSet(entries[..], toPropagate)
        invariant toPropagate != [] ==> CountUnset(entries[..]) < CountUnset(before)
        invariant PopAll(entries[..], toPropagate, CountUnset(before)) == Cascade(before, row, col)
        decreases |toPropagate|
      {
        ghost var prev := entries[..];
        var top := toPropagate[|toPropagate| - 1];
        ghost var stack := toPropagate;
        toPropagate := toPropagate[..|toPropagate| - 1];
        PopTop(before, prev, row, col, stack);
        PopAllNext(prev, stack, CountUnset(before));
        Propagate(top.0, top.1);
        PopStep(before, prev, entries[..], row, col, stack);
        StackFreshCount(before, entries[..], toPropagate);
      }
      EndPopping(before, entries[..], row, col);
    }

    /** `first_pass`: every cell assigned on entry is propagated in row-major
        order. Afterwards every assigned cell, old or new, is propagated. */
    method FirstPass()
      requires Valid()
      modifies entries
      ensures Valid() && Evolves(old(entries[..]), entries[..])
      ensures FullyPropagated(entries[..])
      ensures KeepsSolutions(old(entries[..]), entries[..]) && Forced(old(entries[..]), entries[..])
      ensures entries[..] == PassRows(old(entries[..]), ROW_COUNT)
    {
      ghost var before := entries[..];
      for row := 0 to ROW_COUNT
        invariant entries.Length == ENTRY_COUNT && Passing(before, entries[..], row * COL_COUNT)
        invariant entries[..] == PassRows(before, row)
      {
        PassRow(before, row);
      }
    }

    /** One iteration of `first_pass`'s outer loop (sudoku_board.rs:170-176):
        the cells of row `row` from left to right. */
    method PassRow(ghost before: seq<Cell>, row: nat)
      requires WellFormed(before) && row < ROW_COUNT
      requires entries.Length == ENTRY_COUNT && Passing(before, entries[..], row * COL_COUNT)
      modifies entries
      ensures entries.Length == ENTRY_COUNT && Passing(before, entries[..], (row + 1) * COL_COUNT)
      ensures entries[..] == PassCols(old(entries[..]), row, COL_COUNT)
    {
      ghost var rowStart := entries[..];
      ghost var n: nat := row * COL_COUNT;  // cells visited so far, in row-major order
      for col := 0 to COL_COUNT
        invariant n == row * COL_COUNT + col
        invariant entries.Length == ENTRY_COUNT && Passing(before, entries[..], n)
        invariant entries[..] == PassCols(rowStart, row, col)
      {
        ghost var prev := entries[..];
        assert IndexAtEntry(row, col) == n;
        if Entry(row, col).IsSet() {
          Propagate(row, col);
        }
        PassStep(before, prev, entries[..], row, col);
        PassColsStep(rowStart, prev, entries[..], row, col);
        n := n + 1;
      }
    }

    /** The row walk of `solve` (sudoku_board.rs:89-95): the cell's own mask minus
        the masks of the other unassigned cells of its row. */
    method WalkRow(row: nat, col: nat) returns (options: CellOptions)
      requires entries.Length == ENTRY_COUNT && row < ROW_COUNT && col < COL_COUNT
      ensures options == Walk(entries[..], Row, row, col, 9)
    {
      options := Entry(row, col).opt;
      for c := 0 to COL_COUNT
        invariant options == Walk(entries[..], Row, row, col, c)
      {
        WalkNext(entries[..], Row, row, col, c);
        if c == col {
          continue;
        }
        if !Entry(row, c).IsSet() {
          options := options.Difference(Entry(row, c).opt);
        }
      }
    }

    /** The column walk of `solve` (sudoku_board.rs:103-109). */
    method WalkColumn(row: nat, col: nat) returns (options: CellOptions)
      requires entries.Length == ENTRY_COUNT && row < ROW_COUNT && col < COL_COUNT
      ensures options == Walk(entries[..], Column, row, col, 9)
    {
      options := Entry(row, col).opt;
      for r := 0 to ROW_COUNT
        invariant options == Walk(entries[..], Column, row, col, r)
      {
        WalkNext(entries[..], Column, row, col, r);
        if r == row {
          continue;
        }
        if !Entry(r, col).IsSet() {
          options := options.Difference(Entry(r, col).opt);
        }
      }
    }

    /** The box walk of `solve` (sudoku_board.rs:118-128), with its self-skip test
        as written. */
    method WalkBox(row: nat, col: nat) returns (options: CellOptions)
      requires entries.Length == ENTRY_COUNT && row < ROW_COUNT && col < COL_COUNT
      ensures options == Walk(entries[..], Box, row, col, 9)
    {
      options := Entry(row, col).opt;
      var r0: nat := row - row % 3;
      var c0: nat := col - col % 3;
      ghost var k := 0;
      for r := 0 to 3
        invariant k == 3 * r
        invariant options == Walk(entries[..], Box, row, col, k)
      {
        for c := 0 to 3
          invariant k == 3 * r + c
          invariant options == Walk(entries[..], Box, row, col, k)
        {
          BoxWalkNext(entries[..], row, col, r0, c0, r, c, k);
          k := k + 1;
          if r0 + r == col && c0 + c == col {
            continue;
          }
          if !Entry(r0 + r, c0 + c).IsSet() {
            options := options.Difference(Entry(r0 + r, c0 + c).opt);
          }
        }
      }
    }

    /** The three deductions of `solve` for one unassigned cell
        (sudoku_board.rs:86-133): the row, column and box walks are tried in turn,
        each from the cell's own mask, and the first that leaves one candidate
        assigns it. The cell is assigned exactly when `Deduction` finds a digit,
        and it is that digit; otherwise the board is unchanged. */
    method Deduce(row: nat, col: nat) returns (solvedCurrent: bool)
      requires Valid() && row < ROW_COUNT && col < COL_COUNT && !At(entries[..], row, col).IsSet()
      modifies entries
      ensures Valid() && Evolves(old(entries[..]), entries[..])
      ensures solvedCurrent <==> Deduction(old(entries[..]), row, col).Some?
      ensures solvedCurrent ==> var i := IndexAtEntry(row, col);
        entries[..] == old(entries[..])[i := old(entries[..])[i].Set(Deduction(old(entries[..]), row, col).value)]
      ensures !solvedCurrent ==> entries[..] == old(entries[..])
    {
      ghost var before := entries[..];
      var i := IndexAtEntry(row, col);
      solvedCurrent := false;

      var options := WalkRow(row, col);
      if options.HasOneOption() {
        assert Deduction(before, row, col) == Some(options.GetLastOption());
        entries[i] := entries[i].Set(options.GetLastOption());
        solvedCurrent := true;
      }

      if !solvedCurrent {
        options := WalkColumn(row, col);
        if options.HasOneOption() {
          assert Deduction(before, row, col) == Some(options.GetLastOption());
          entries[i] := entries[i].Set(options.GetLastOption());
          solvedCurrent := true;
        }
      }

      if !solvedCurrent {
        options := WalkBox(row, col);
        if options.HasOneOption() {
          assert Deduction(before, row, col) == Some(options.GetLastOption());
          entries[i] := entries[i].Set(options.GetLastOption());
          solvedCurrent := true;
        }
      }
    }

    /** The body of the sweep of `solve` for one unassigned cell
        (sudoku_board.rs:84-138): the deductions are tried, and a cell they assign
        is propagated at once. The cell is assigned exactly when `Deduction` finds
        a digit, and then fewer cells are unassigned; otherwise nothing changes.
        Every solution the board allowed is still allowed, and every candidate
        removed is the digit of an assigned neighbour or belonged to this cell. */
    method SolveCell(row: nat, col: nat) returns (solvedCurrent: bool)
      requires Valid() && FullyPropagated(entries[..]) && row < ROW_COUNT && col < COL_COUNT
      requires !At(entries[..], row, col).IsSet()
      modifies entries
      ensures Valid() && Evolves(old(entries[..]), entries[..]) && FullyPropagated(entries[..])
      ensures solvedCurrent <==> Deduction(old(entries[..]), row, col).Some?
      ensures solvedCurrent ==> var i := IndexAtEntry(row, col);
        entries[..][i] == old(entries[..])[i].Set(Deduction(old(entries[..]), row, col).value)
      ensures solvedCurrent ==> CountUnset(entries[..]) < CountUnset(old(entries[..]))
      ensures !solvedCurrent ==> entries[..] == old(entries[..])
      ensures KeepsSolutions(old(entries[..]), entries[..]) && Justified(old(entries[..]), entries[..])
      ensures entries[..] == SolveCellSpec(old(entries[..]), row, col)
    {
      ghost var prev := entries[..];
      solvedCurrent := Deduce(row, col);
      if solvedCurrent {
        ghost var mid := entries[..];
        Propagate(row, col);
        assert Refines(mid[IndexAtEntry(row, col)], entries[..][IndexAtEntry(row, col)]);
        AssignKeeps(prev, mid, entries[..], row, col);
        DeduceSound(prev, mid, entries[..], row, col);
      }
    }

    /** One pass of the `while` body of `solve` (sudoku_board.rs:81-141) over every
        unassigned cell in row-major order: a cell that `Deduce` assigns is
        propagated at once. When it makes no update the board is
        unchanged and stuck; otherwise fewer cells are unassigned. */
    method Sweep() returns (madeUpdates: bool)
      requires Valid() && FullyPropagated(entries[..])
      modifies entries
      ensures Valid() && Evolves(old(entries[..]), entries[..]) && FullyPropagated(entries[..])
      ensures madeUpdates ==> CountUnset(entries[..]) < CountUnset(old(entries[..]))
      ensures !madeUpdates ==> entries[..] == old(entries[..]) && Stuck(entries[..])
      ensures KeepsSolutions(old(entries[..]), entries[..]) && Justified(old(entries[..]), entries[..])
      ensures (entries[..], madeUpdates) == SweepRows(old(entries[..]), ROW_COUNT)
    {
      ghost var before := entries[..];
      madeUpdates := false;
      for row := 0 to ROW_COUNT
        invariant entries.Length == ENTRY_COUNT && Sweeping(before, entries[..], madeUpdates, row * COL_COUNT)
        invariant (entries[..], madeUpdates) == SweepRows(before, row)
      {
        ghost var prev, prevFlag := entries[..], madeUpdates;
        madeUpdates := SweepRow(before, row, madeUpdates);
        SweepRowsStep(before, prev, prevFlag, entries[..], madeUpdates, row);
      }
      if !madeUpdates {
        NoDeductionStuck(entries[..]);
      }
    }

    /** One iteration of the outer loop of a sweep (sudoku_board.rs:82-140): the
        cells of row `row` from left to right. */
    method SweepRow(ghost before: seq<Cell>, row: nat, updates: bool) returns (madeUpdates: bool)
      requires WellFormed(before) && row < ROW_COUNT
      requires entries.Length == ENTRY_COUNT && Sweeping(before, entries[..], updates, row * COL_COUNT)
      modifies entries
      ensures entries.Length == ENTRY_COUNT && Sweeping(before, entries[..], madeUpdates, (row + 1) * COL_COUNT)
      ensures var r := SweepCols(old(entries[..]), row, COL_COUNT); entries[..] == r.0 && madeUpdates == (updates || r.1)
    {
      ghost var rowStart := entries[..];
      ghost var n: nat := row * COL_COUNT;  // cells visited so far, in row-major order
      ghost var rowUpdates := false;  // whether this row has solved a cell
      madeUpdates := updates;
      for col := 0 to COL_COUNT
        invariant n == row * COL_COUNT + col
        invariant entries.Length == ENTRY_COUNT && Sweeping(before, entries[..], madeUpdates, n)
        invariant (entries[..], rowUpdates) == SweepCols(rowStart, row, col)
        invariant madeUpdates == (updates || rowUpdates)
      {
        ghost var prev, prevFlag, prevRow := entries[..], madeUpdates, rowUpdates;
        assert IndexAtEntry(row, col) == n;
        if !Entry(row, col).IsSet() {
          var solvedCurrent := SolveCell(row, col);
          if solvedCurrent {
            madeUpdates := true;
            rowUpdates := true;
          }
        }
        SweepStep(before, prev, prevFlag, entries[..], madeUpdates, row, col);
        SweepColsStep(rowStart, prev, prevRow, entries[..], rowUpdates, row, col);
        n := n + 1;
      }
    }

    /** `Board::solve`: propagate every given digit, then sweep until the board is
        solved or a sweep makes no update. The loop ends because every sweep that
        does not stop it assigns a cell. The result is true exactly when every cell
        is assigned; when it is false no remaining cell admits a deduction. */
    method Solve() returns (result: bool)
      requires Valid()
      modifies entries
      ensures Valid() && Evolves(old(entries[..]), entries[..]) && FullyPropagated(entries[..])
      ensures result <==> Solved(entries[..])
      ensures !result ==> Stuck(entries[..])
      ensures KeepsSolutions(old(entries[..]), entries[..]) && Justified(old(entries[..]), entries[..])
      ensures result ==> forall sol | IsSolution(sol) && Agrees(sol, old(entries[..])) ::
        forall i | 0 <= i < ENTRY_COUNT :: entries[i].c == sol[i]
      ensures (entries[..], result) == SolveSpec(old(entries[..]))
    {
      ghost var before := entries[..];
      result := true;
      FirstPass();
      ForcedJustified(before, entries[..]);
      ghost var passed := entries[..];
      var solved := IsSolved();
      while !solved
        invariant Valid() && Evolves(before, entries[..]) && FullyPropagated(entries[..])
        invariant KeepsSolutions(before, entries[..]) && Justified(before, entries[..])
        invariant result && (solved <==> Solved(entries[..]))
        invariant SolveLoop(entries[..]) == SolveLoop(passed)
        decreases CountUnset(entries[..])
      {
        ghost var prev := entries[..];
        var madeUpdates := Sweep();
        EvolvesTransitive(before, prev, entries[..]);
        KeepsSolutionsTransitive(before, prev, entries[..]);
        JustifiedTransitive(before, prev, entries[..]);
        if !madeUpdates {
          result := false;
          break;
        }
        solved := IsSolved();
      }
      if result {
        forall sol | IsSolution(sol) && Agrees(sol, before)
          ensures forall i | 0 <= i < ENTRY_COUNT :: entries[i].c == sol[i]
        {
          SolvedIsSolution(entries[..], sol);
        }
      }
    }
  }
}
