/** The board of src/sudoku_board.rs as a value: its 81 cells in row-major order,
    and the specification functions that the methods of `SudokuBoard.Board` are
    proved against. */
module SudokuGrid {
  import opened SudokuCell

  /** `Board::ROW_COUNT`, `Board::COL_COUNT` and `Board::ENTRY_COUNT`. */
  const ROW_COUNT: nat := 9
  const COL_COUNT: nat := 9
  const ENTRY_COUNT: nat := 81

  datatype Option<T> = None | Some(value: T)

  /** `Board::index_at_entry`: asserts `row < 9` and `col < 9` and returns
      `row * 9 + col`, whose quotient and remainder by 9 give the coordinates back. */
  function IndexAtEntry(row: nat, col: nat): (i: nat)
    requires row < ROW_COUNT && col < COL_COUNT
    ensures i < ENTRY_COUNT
    ensures i / COL_COUNT == row && i % COL_COUNT == col
  {
    row * ROW_COUNT + col
  }

  /** Every index of the array is the index of exactly one pair of coordinates. */
  lemma IndexAtEntryOnto(i: nat)
    requires i < ENTRY_COUNT
    ensures i / COL_COUNT < ROW_COUNT && IndexAtEntry(i / COL_COUNT, i % COL_COUNT) == i
  {
  }

  /** The cell `entry(row, col)` returns. */
  function At(cells: seq<Cell>, row: nat, col: nat): Cell
    requires |cells| == ENTRY_COUNT && row < ROW_COUNT && col < COL_COUNT
  {
    cells[IndexAtEntry(row, col)]
  }

  /** Every cell keeps the invariant of `Cell.Consistent`. */
  predicate WellFormed(cells: seq<Cell>) {
    |cells| == ENTRY_COUNT && forall i {:trigger cells[i].Consistent()} | 0 <= i < ENTRY_COUNT :: cells[i].Consistent()
  }

  /** `is_solved`: every cell is assigned. */
  predicate Solved(cells: seq<Cell>) {
    forall i | 0 <= i < |cells| :: cells[i].IsSet()
  }

  /** The number of unassigned cells, the measure that bounds propagation and solving. */
  function CountUnset(cells: seq<Cell>): (n: nat)
    ensures n <= |cells|
  {
    CountFrom(cells, 0)
  }

  /** The number of unassigned cells from index i on. */
  function CountFrom(cells: seq<Cell>, i: nat): (n: nat)
    requires i <= |cells|
    ensures n <= |cells| - i
    decreases |cells| - i
  {
    if i == |cells| then 0
    else (if cells[i].IsSet() then 0 else 1) + CountFrom(cells, i + 1)
  }

  /** No unassigned cell is left exactly when the count is zero. */
  lemma CountUnsetZeroIffSolved(cells: seq<Cell>)
    ensures CountUnset(cells) == 0 <==> Solved(cells)
  {
    CountFromZero(cells, 0);
  }

  /** The count from index i is zero exactly when every cell from i on is assigned. */
  lemma {:induction false} CountFromZero(cells: seq<Cell>, i: nat)
    requires i <= |cells|
    ensures CountFrom(cells, i) == 0 <==> forall j | i <= j < |cells| :: cells[j].IsSet()
    decreases |cells| - i
  {
    if i < |cells| {
      CountFromZero(cells, i + 1);
    }
  }

  /** When no cell loses its assignment the count cannot grow, and it drops when
      some cell gains one. */
  lemma CountUnsetMonotone(a: seq<Cell>, b: seq<Cell>)
    requires |a| == |b|
    requires forall i | 0 <= i < |a| :: a[i].IsSet() ==> b[i].IsSet()
    ensures CountUnset(b) <= CountUnset(a)
    ensures (exists i | 0 <= i < |a| :: !a[i].IsSet() && b[i].IsSet()) ==> CountUnset(b) < CountUnset(a)
  {
    CountFromMonotone(a, b, 0);
  }

  /** The same for the counts from index i on. */
  lemma {:induction false} CountFromMonotone(a: seq<Cell>, b: seq<Cell>, i: nat)
    requires |a| == |b| && i <= |a|
    requires forall j | i <= j < |a| :: a[j].IsSet() ==> b[j].IsSet()
    ensures CountFrom(b, i) <= CountFrom(a, i)
    ensures (exists j | i <= j < |a| :: !a[j].IsSet() && b[j].IsSet()) ==> CountFrom(b, i) < CountFrom(a, i)
    decreases |a| - i
  {
    if i < |a| {
      CountFromMonotone(a, b, i + 1);
      if exists j | i <= j < |a| :: !a[j].IsSet() && b[j].IsSet() {
        var j :| i <= j < |a| && !a[j].IsSet() && b[j].IsSet();
        if j != i {
          assert i + 1 <= j;
        }
      }
    }
  }

  /** The same for a board and one that evolves from it. */
  lemma EvolvesCountUnset(a: seq<Cell>, b: seq<Cell>)
    requires Evolves(a, b)
    ensures CountUnset(b) <= CountUnset(a)
    ensures (exists i | 0 <= i < ENTRY_COUNT :: !a[i].IsSet() && b[i].IsSet()) ==> CountUnset(b) < CountUnset(a)
  {
    forall i | 0 <= i < |a| ensures a[i].IsSet() ==> b[i].IsSet() {
      assert Refines(a[i], b[i]);
    }
    CountUnsetMonotone(a, b);
  }

  /** How one cell may change while the engine runs: an assigned cell never changes,
      and a mask only loses bits. */
  predicate Refines(before: Cell, after: Cell) {
    && (before.IsSet() ==> after == before)
    && after.opt.bits <= before.opt.bits
  }

  /** Every cell of `after` refines the same cell of `before`. */
  predicate Evolves(before: seq<Cell>, after: seq<Cell>) {
    && |before| == ENTRY_COUNT && |after| == ENTRY_COUNT
    && forall i {:trigger Refines(before[i], after[i])} | 0 <= i < ENTRY_COUNT :: Refines(before[i], after[i])
  }

  /** Refinement composes. */
  lemma EvolvesTransitive(a: seq<Cell>, b: seq<Cell>, c: seq<Cell>)
    requires Evolves(a, b) && Evolves(b, c)
    ensures Evolves(a, c)
  {
    forall i | 0 <= i < ENTRY_COUNT ensures Refines(a[i], c[i]) {
      assert Refines(a[i], b[i]) && Refines(b[i], c[i]);
    }
  }

  /** The top-left coordinate `x - x % 3` of the box holding row or column `x`. */
  function BoxOrigin(x: nat): nat {
    x - x % 3
  }

  /** Cell (r, c) lies in the row, the column or the 3×3 box of (row, col). */
  predicate SharesUnit(row: nat, col: nat, r: nat, c: nat) {
    r == row || c == col || (BoxOrigin(r) == BoxOrigin(row) && BoxOrigin(c) == BoxOrigin(col))
  }

  /** Cell i is assigned, or `d` is no longer one of its candidates. */
  predicate Excludes(cells: seq<Cell>, i: nat, d: char)
    requires i < |cells| && IsDigit(d)
  {
    cells[i].IsSet() || !cells[i].opt.Has(d)
  }

  /** What `propagate(row, col)` establishes: the cell is assigned and no unassigned
      cell in its row, column or box still has its digit as a candidate. */
  predicate Propagated(cells: seq<Cell>, row: nat, col: nat)
    requires |cells| == ENTRY_COUNT && row < ROW_COUNT && col < COL_COUNT
  {
    var cell := At(cells, row, col);
    && cell.IsSet()
    && forall i | 0 <= i < ENTRY_COUNT && SharesUnit(row, col, i / COL_COUNT, i % COL_COUNT) ::
         Excludes(cells, i, cell.c)
  }

  /** Every assigned cell has been propagated. */
  predicate FullyPropagated(cells: seq<Cell>)
    requires |cells| == ENTRY_COUNT
  {
    forall i | 0 <= i < ENTRY_COUNT && cells[i].IsSet() ::
      Propagated(cells, i / COL_COUNT, i % COL_COUNT)
  }

  /** Propagation is never undone: shrinking masks and new assignments keep it. */
  lemma PropagatedPersists(a: seq<Cell>, b: seq<Cell>, row: nat, col: nat)
    requires Evolves(a, b) && row < ROW_COUNT && col < COL_COUNT
    requires Propagated(a, row, col)
    ensures Propagated(b, row, col)
  {
    var d := At(a, row, col).c;
    assert Refines(At(a, row, col), At(b, row, col));
    forall i | 0 <= i < ENTRY_COUNT && SharesUnit(row, col, i / COL_COUNT, i % COL_COUNT)
      ensures Excludes(b, i, d)
    {
      assert Excludes(a, i, d);
      assert Refines(a[i], b[i]);
    }
  }

  /** The three deductions of `solve`. */
  datatype Unit = Row | Column | Box

  /** The coordinates visited at step k of the walk over `unit`: `(row, k)` for the
      row, `(k, col)` for the column, and `(r0 + k / 3, c0 + k % 3)` for the box,
      where (r0, c0) is the box origin. */
  function Visited(unit: Unit, row: nat, col: nat, k: nat): (rc: (nat, nat))
    requires row < ROW_COUNT && col < COL_COUNT && k < 9
    ensures rc.0 < ROW_COUNT && rc.1 < COL_COUNT
  {
    match unit
    case Row => (row, k)
    case Column => (k, col)
    case Box => (BoxOrigin(row) + BoxRow(k), BoxOrigin(col) + BoxColumn(k))
  }

  /** The row offset `k / 3` of step k inside the box. */
  function BoxRow(k: nat): nat {
    if k < 3 then 0 else if k < 6 then 1 else 2
  }

  /** The column offset `k % 3` of step k inside the box. */
  function BoxColumn(k: nat): nat {
    k - 3 * BoxRow(k)
  }

  /** The array index of the cell visited at step k. */
  function VisitedIndex(unit: Unit, row: nat, col: nat, k: nat): nat
    requires row < ROW_COUNT && col < COL_COUNT && k < 9
  {
    var rc := Visited(unit, row, col, k);
    IndexAtEntry(rc.0, rc.1)
  }

  /** Every cell a walk visits shares a unit with (row, col). */
  lemma VisitedSharesUnit(unit: Unit, row: nat, col: nat, k: nat)
    requires row < ROW_COUNT && col < COL_COUNT && k < 9
    ensures var i := VisitedIndex(unit, row, col, k);
      SharesUnit(row, col, i / COL_COUNT, i % COL_COUNT)
  {
    if unit == Box {
      BoxOriginShift(row, BoxRow(k));
      BoxOriginShift(col, BoxColumn(k));
    }
  }

  /** Moving less than 3 from a box origin stays in the same box. */
  lemma BoxOriginShift(x: nat, d: nat)
    requires d < 3
    ensures BoxOrigin(BoxOrigin(x) + d) == BoxOrigin(x)
  {
    var q := x / 3;
    assert BoxOrigin(x) == 3 * q;
    assert (3 * q + d) % 3 == d;
  }

  /** The row, column and box walks together visit every cell that shares a unit
      with (row, col). */
  lemma WalksCoverUnits(row: nat, col: nat, i: nat)
    requires row < ROW_COUNT && col < COL_COUNT && i < ENTRY_COUNT
    requires SharesUnit(row, col, i / COL_COUNT, i % COL_COUNT)
    ensures exists unit, k | 0 <= k < 9 :: VisitedIndex(unit, row, col, k) == i
  {
    var r, c := i / COL_COUNT, i % COL_COUNT;
    IndexAtEntryOnto(i);
    if r == row {
      assert Visited(Row, row, col, c) == (r, c);
      assert VisitedIndex(Row, row, col, c) == i;
    } else if c == col {
      assert Visited(Column, row, col, r) == (r, c);
      assert VisitedIndex(Column, row, col, r) == i;
    } else {
      var k := (r % 3) * 3 + c % 3;
      assert BoxRow(k) == r % 3 && BoxColumn(k) == c % 3;
      assert BoxOrigin(row) + r % 3 == r && BoxOrigin(col) + c % 3 == c;
      assert Visited(Box, row, col, k) == (r, c);
      assert VisitedIndex(Box, row, col, k) == i;
    }
  }

  /** Cell i is among the first n cells of the walk over `unit`. */
  ghost predicate OnWalk(unit: Unit, row: nat, col: nat, n: nat, i: nat)
    requires row < ROW_COUNT && col < COL_COUNT && n <= 9
  {
    exists k | 0 <= k < n :: VisitedIndex(unit, row, col, k) == i
  }

  /** A cell outside the row, column and box of (row, col) is on none of its walks. */
  lemma OffWalk(unit: Unit, row: nat, col: nat, i: nat)
    requires row < ROW_COUNT && col < COL_COUNT && !SharesUnit(row, col, i / COL_COUNT, i % COL_COUNT)
    ensures !OnWalk(unit, row, col, 9, i)
  {
    forall k | 0 <= k < 9 ensures VisitedIndex(unit, row, col, k) != i {
      VisitedSharesUnit(unit, row, col, k);
    }
  }

  /** The first n cells of the walk over `unit` are assigned or lack `d`. */
  predicate ExcludedUpTo(cells: seq<Cell>, unit: Unit, row: nat, col: nat, n: nat, d: char)
    requires |cells| == ENTRY_COUNT && row < ROW_COUNT && col < COL_COUNT && n <= 9 && IsDigit(d)
  {
    forall k | 0 <= k < n :: Excludes(cells, VisitedIndex(unit, row, col, k), d)
  }

  /** Exclusions survive any later refinement of the board. */
  lemma ExcludedPersists(a: seq<Cell>, b: seq<Cell>, unit: Unit, row: nat, col: nat, n: nat, d: char)
    requires Evolves(a, b) && row < ROW_COUNT && col < COL_COUNT && n <= 9 && IsDigit(d)
    requires ExcludedUpTo(a, unit, row, col, n, d)
    ensures ExcludedUpTo(b, unit, row, col, n, d)
  {
    forall k | 0 <= k < n ensures Excludes(b, VisitedIndex(unit, row, col, k), d) {
      var i := VisitedIndex(unit, row, col, k);
      assert Excludes(a, i, d) && Refines(a[i], b[i]);
    }
  }

  /** One more excluded cell extends the walk's exclusions, whatever else was
      refined meanwhile. */
  lemma ExcludedStep(a: seq<Cell>, b: seq<Cell>, unit: Unit, row: nat, col: nat, k: nat, d: char)
    requires Evolves(a, b) && row < ROW_COUNT && col < COL_COUNT && k < 9 && IsDigit(d)
    requires ExcludedUpTo(a, unit, row, col, k, d)
    requires Excludes(b, VisitedIndex(unit, row, col, k), d)
    ensures ExcludedUpTo(b, unit, row, col, k + 1, d)
  {
    ExcludedPersists(a, b, unit, row, col, k, d);
  }

  /** Eliminating the digit at the next visited cell extends the walk's
      exclusions by that cell. */
  lemma ExcludedAfterEliminated(cells: seq<Cell>, unit: Unit, row: nat, col: nat, k: nat, d: char)
    requires WellFormed(cells) && row < ROW_COUNT && col < COL_COUNT && k < 9 && IsDigit(d)
    requires ExcludedUpTo(cells, unit, row, col, k, d)
    ensures var i := VisitedIndex(unit, row, col, k);
      ExcludedUpTo(cells[i := Eliminated(cells[i], d)], unit, row, col, k + 1, d)
  {
    var i := VisitedIndex(unit, row, col, k);
    var next := cells[i := Eliminated(cells[i], d)];
    forall j | 0 <= j < k + 1 ensures Excludes(next, VisitedIndex(unit, row, col, j), d) {
      var v := VisitedIndex(unit, row, col, j);
      if v != i {
        assert Excludes(cells, v, d) && next[v] == cells[v];
      }
    }
  }

  /** Excluding an assigned cell's digit along its row, column and box walks is
      exactly what propagating it means. */
  lemma WalksPropagate(cells: seq<Cell>, row: nat, col: nat)
    requires |cells| == ENTRY_COUNT && row < ROW_COUNT && col < COL_COUNT
    requires At(cells, row, col).IsSet()
    requires var d := At(cells, row, col).c;
      && ExcludedUpTo(cells, Row, row, col, 9, d)
      && ExcludedUpTo(cells, Column, row, col, 9, d)
      && ExcludedUpTo(cells, Box, row, col, 9, d)
    ensures Propagated(cells, row, col)
  {
    var d := At(cells, row, col).c;
    forall i | 0 <= i < ENTRY_COUNT && SharesUnit(row, col, i / COL_COUNT, i % COL_COUNT)
      ensures Excludes(cells, i, d)
    {
      WalksCoverUnits(row, col, i);
      var unit, k :| 0 <= k < 9 && VisitedIndex(unit, row, col, k) == i;
      assert Excludes(cells, VisitedIndex(unit, row, col, k), d);
    }
  }

  /** The `continue` test of step k, as written: the box test compares both
      coordinates with `col`. */
  predicate Skipped(unit: Unit, row: nat, col: nat, k: nat) {
    match unit
    case Row => k == col
    case Column => k == row
    case Box => BoxOrigin(row) + BoxRow(k) == col && BoxOrigin(col) + BoxColumn(k) == col
  }

  /** Step k of the walk subtracts a mask holding bit p: it is not skipped and
      visits an unassigned cell whose mask has bit p. */
  predicate Clears(cells: seq<Cell>, unit: Unit, row: nat, col: nat, k: nat, p: nat)
    requires |cells| == ENTRY_COUNT && row < ROW_COUNT && col < COL_COUNT && k < 9
  {
    var rc := Visited(unit, row, col, k);
    && !Skipped(unit, row, col, k)
    && !At(cells, rc.0, rc.1).IsSet()
    && p in At(cells, rc.0, rc.1).opt.bits
  }

  /** The local `options` after the first n steps of a walk: it starts from the
      cell's own mask, and each unskipped unassigned cell's mask is subtracted. */
  function Walk(cells: seq<Cell>, unit: Unit, row: nat, col: nat, n: nat): (r: CellOptions)
    requires |cells| == ENTRY_COUNT && row < ROW_COUNT && col < COL_COUNT && n <= 9
    ensures r.bits <= At(cells, row, col).opt.bits
  {
    if n == 0 then At(cells, row, col).opt
    else
      var o := Walk(cells, unit, row, col, n - 1);
      var rc := Visited(unit, row, col, n - 1);
      if Skipped(unit, row, col, n - 1) || At(cells, rc.0, rc.1).IsSet() then o
      else o.Difference(At(cells, rc.0, rc.1).opt)
  }

  /** One more step of a walk. */
  lemma WalkNext(cells: seq<Cell>, unit: Unit, row: nat, col: nat, k: nat)
    requires |cells| == ENTRY_COUNT && row < ROW_COUNT && col < COL_COUNT && k < 9
    ensures var rc := Visited(unit, row, col, k);
      Walk(cells, unit, row, col, k + 1) ==
        if Skipped(unit, row, col, k) || At(cells, rc.0, rc.1).IsSet() then Walk(cells, unit, row, col, k)
        else Walk(cells, unit, row, col, k).Difference(At(cells, rc.0, rc.1).opt)
  {
  }

  /** Step (r, c) of the nested box loops from the box origin (r0, c0) is step
      k = 3r + c of the box walk. */
  lemma BoxWalkNext(cells: seq<Cell>, row: nat, col: nat, r0: nat, c0: nat, r: nat, c: nat, k: nat)
    requires |cells| == ENTRY_COUNT && row < ROW_COUNT && col < COL_COUNT
    requires r0 == BoxOrigin(row) && c0 == BoxOrigin(col) && r < 3 && c < 3 && k == 3 * r + c
    ensures r0 + r < ROW_COUNT && c0 + c < COL_COUNT
    ensures Walk(cells, Box, row, col, k + 1) ==
      if (r0 + r == col && c0 + c == col) || At(cells, r0 + r, c0 + c).IsSet() then Walk(cells, Box, row, col, k)
      else Walk(cells, Box, row, col, k).Difference(At(cells, r0 + r, c0 + c).opt)
  {
    assert BoxRow(k) == r && BoxColumn(k) == c;
    assert Visited(Box, row, col, k) == (r0 + r, c0 + c);
    assert Skipped(Box, row, col, k) == (r0 + r == col && c0 + c == col);
    WalkNext(cells, Box, row, col, k);
  }

  /** A bit survives the walk exactly when the cell's own mask has it and no step
      subtracts it. */
  lemma {:induction false} WalkBits(cells: seq<Cell>, unit: Unit, row: nat, col: nat, n: nat, p: nat)
    requires |cells| == ENTRY_COUNT && row < ROW_COUNT && col < COL_COUNT && n <= 9
    ensures p in Walk(cells, unit, row, col, n).bits <==>
      p in At(cells, row, col).opt.bits && forall k | 0 <= k < n :: !Clears(cells, unit, row, col, k, p)
  {
    if n > 0 {
      WalkBits(cells, unit, row, col, n - 1, p);
      assert (p in Walk(cells, unit, row, col, n).bits) ==
        (p in Walk(cells, unit, row, col, n - 1).bits && !Clears(cells, unit, row, col, n - 1, p));
      assert (forall k | 0 <= k < n :: !Clears(cells, unit, row, col, k, p)) ==
        ((forall k | 0 <= k < n - 1 :: !Clears(cells, unit, row, col, k, p))
         && !Clears(cells, unit, row, col, n - 1, p));
    }
  }

  /** The hidden-single rule behind each deduction: when the walk leaves one bit,
      its digit is a candidate of the cell and no unskipped unassigned cell the
      walk visits can still take it. */
  lemma WalkSingleton(cells: seq<Cell>, unit: Unit, row: nat, col: nat)
    requires WellFormed(cells) && row < ROW_COUNT && col < COL_COUNT
    requires Walk(cells, unit, row, col, 9).HasOneOption()
    ensures IsDigit(Walk(cells, unit, row, col, 9).GetLastOption())
    ensures At(cells, row, col).opt.Has(Walk(cells, unit, row, col, 9).GetLastOption())
    ensures forall k | 0 <= k < 9 && !Skipped(unit, row, col, k) ::
      Excludes(cells, IndexAtEntry(Visited(unit, row, col, k).0, Visited(unit, row, col, k).1),
               Walk(cells, unit, row, col, 9).GetLastOption())
  {
    var w := Walk(cells, unit, row, col, 9);
    assert At(cells, row, col).Consistent();
    assert w.InRange();
    var d := w.GetLastOption();
    WalkBits(cells, unit, row, col, 9, Pos(d));
    forall k | 0 <= k < 9 && !Skipped(unit, row, col, k)
      ensures Excludes(cells, IndexAtEntry(Visited(unit, row, col, k).0, Visited(unit, row, col, k).1), d)
    {
      assert !Clears(cells, unit, row, col, k, Pos(d));
    }
  }

  /** The box self-skip of `solve` as written: off the diagonal the walk does not
      skip the cell itself, so an unassigned cell's own mask is subtracted from
      itself and the box deduction is empty. */
  lemma BoxWalkEmptyOffDiagonal(cells: seq<Cell>, row: nat, col: nat)
    requires |cells| == ENTRY_COUNT && row < ROW_COUNT && col < COL_COUNT
    requires row != col && !At(cells, row, col).IsSet()
    ensures Walk(cells, Box, row, col, 9).bits == {}
    ensures !Walk(cells, Box, row, col, 9).HasOneOption()
  {
    var k := (row % 3) * 3 + col % 3;
    assert Visited(Box, row, col, k) == (row, col);
    forall p | p in Walk(cells, Box, row, col, 9).bits ensures false {
      assert Clears(cells, Box, row, col, k, p);
      WalkBits(cells, Box, row, col, 9, p);
    }
  }

  /** On the diagonal the box walk skips the cell itself and subtracts the other
      eight cells of the box. */
  lemma BoxWalkOnDiagonal(cells: seq<Cell>, row: nat)
    requires |cells| == ENTRY_COUNT && row < ROW_COUNT
    ensures forall k | 0 <= k < 9 :: Skipped(Box, row, row, k) <==> Visited(Box, row, row, k) == (row, row)
  {
  }

  /** What the body of `solve` deduces for an unassigned cell (sudoku_board.rs:86-133):
      the row walk, else the column walk, else the box walk, each from the cell's
      own mask; a walk succeeds when it leaves exactly one option. */
  function Deduction(cells: seq<Cell>, row: nat, col: nat): (r: Option<char>)
    requires WellFormed(cells) && row < ROW_COUNT && col < COL_COUNT
    ensures r.Some? ==> IsDigit(r.value) && At(cells, row, col).opt.Has(r.value)
  {
    var byRow := Walk(cells, Row, row, col, 9);
    var byColumn := Walk(cells, Column, row, col, 9);
    var byBox := Walk(cells, Box, row, col, 9);
    assert At(cells, row, col).Consistent();
    if byRow.HasOneOption() then Some(byRow.GetLastOption())
    else if byColumn.HasOneOption() then Some(byColumn.GetLastOption())
    else if byBox.HasOneOption() then Some(byBox.GetLastOption())
    else None
  }

  /** No unassigned cell among the first n admits a deduction. */
  predicate NoDeductionBelow(cells: seq<Cell>, n: nat)
    requires WellFormed(cells)
  {
    forall i | 0 <= i < n && i < ENTRY_COUNT && !cells[i].IsSet() ::
      Deduction(cells, i / COL_COUNT, i % COL_COUNT) == None
  }

  /** Extending `NoDeductionBelow` by an assigned cell or a cell without deduction. */
  lemma NoDeductionStep(cells: seq<Cell>, row: nat, col: nat)
    requires WellFormed(cells) && row < ROW_COUNT && col < COL_COUNT
    requires NoDeductionBelow(cells, row * COL_COUNT + col)
    requires At(cells, row, col).IsSet() || Deduction(cells, row, col) == None
    ensures NoDeductionBelow(cells, row * COL_COUNT + col + 1)
  {
    var n := IndexAtEntry(row, col);
    forall i | 0 <= i < n + 1 && i < ENTRY_COUNT && !cells[i].IsSet()
      ensures Deduction(cells, i / COL_COUNT, i % COL_COUNT) == None
    {
      if i == n {
        assert i / COL_COUNT == row && i % COL_COUNT == col;
      }
    }
  }

  /** No unassigned cell admits a deduction: a sweep over such a board changes nothing. */
  predicate Stuck(cells: seq<Cell>)
    requires WellFormed(cells)
  {
    forall i | 0 <= i < ENTRY_COUNT && !cells[i].IsSet() ::
      Deduction(cells, i / COL_COUNT, i % COL_COUNT) == None
  }

  /** A board without deduction below 81 is stuck. */
  lemma NoDeductionStuck(cells: seq<Cell>)
    requires WellFormed(cells) && NoDeductionBelow(cells, ENTRY_COUNT)
    ensures Stuck(cells)
  {
  }

  /** What `propagate_apply` with digit `d` does to one cell: an assigned cell is
      left alone; an unassigned one loses `d` and, when one candidate is left,
      is assigned it. */
  function Eliminated(cell: Cell, d: char): (r: Cell)
    requires cell.Consistent() && IsDigit(d)
    ensures r.Consistent() && Refines(cell, r)
    ensures r.IsSet() || !r.opt.Has(d)
    ensures r.opt.bits == (if cell.IsSet() then cell.opt.bits else cell.opt.bits - {Pos(d)})
  {
    if cell.IsSet() then cell
    else
      var removed := cell.RemoveOption(d);
      if removed.HasOneOption() then removed.ApplyOption() else removed
  }

  /** Eliminating a digit from one cell only refines the board. */
  lemma EvolvesEliminated(cells: seq<Cell>, i: nat, d: char)
    requires WellFormed(cells) && i < ENTRY_COUNT && IsDigit(d)
    ensures WellFormed(cells[i := Eliminated(cells[i], d)])
    ensures Evolves(cells, cells[i := Eliminated(cells[i], d)])
  {
    var next := cells[i := Eliminated(cells[i], d)];
    forall j | 0 <= j < ENTRY_COUNT ensures next[j].Consistent() && Refines(cells[j], next[j]) {
      if j != i { assert next[j] == cells[j]; }
    }
  }

  /** Eliminating a digit a cell already excludes leaves the cell as it is. */
  lemma EliminatedExcluded(cell: Cell, d: char)
    requires cell.Consistent() && IsDigit(d) && (cell.IsSet() || !cell.opt.Has(d))
    ensures Eliminated(cell, d) == cell
  {
    if !cell.IsSet() {
      assert cell.RemoveOption(d).opt.bits == cell.opt.bits;
      assert cell.RemoveOption(d) == cell;
    }
  }

  /** Some assigned cell other than i, in the row, column or box of cell i, holds
      the digit of bit p. */
  ghost predicate Witnessed(cells: seq<Cell>, i: nat, p: nat)
    requires |cells| == ENTRY_COUNT && i < ENTRY_COUNT
  {
    exists j | 0 <= j < ENTRY_COUNT && j != i :: && cells[j].IsSet() && Pos(cells[j].c) == p
      && SharesUnit(j / COL_COUNT, j % COL_COUNT, i / COL_COUNT, i % COL_COUNT)
  }

  /** Every candidate removed between `before` and `after` is the digit of an
      assigned cell of the same row, column or box: the only eliminations
      `propagate` makes. */
  ghost predicate Forced(before: seq<Cell>, after: seq<Cell>)
    requires |before| == ENTRY_COUNT && |after| == ENTRY_COUNT
  {
    forall i, p | 0 <= i < ENTRY_COUNT && p in before[i].opt.bits && p !in after[i].opt.bits ::
      Witnessed(after, i, p)
  }

  /** Like `Forced`, except that a cell that became assigned may also have lost
      its other candidates: the shape of a sweep, whose deductions assign a cell. */
  ghost predicate Justified(before: seq<Cell>, after: seq<Cell>)
    requires |before| == ENTRY_COUNT && |after| == ENTRY_COUNT
  {
    forall i, p | 0 <= i < ENTRY_COUNT && p in before[i].opt.bits && p !in after[i].opt.bits ::
      Witnessed(after, i, p) || (after[i].IsSet() && !before[i].IsSet())
  }

  /** A witness stays one while the board is refined. */
  lemma WitnessedPersists(b: seq<Cell>, c: seq<Cell>, i: nat, p: nat)
    requires Evolves(b, c) && i < ENTRY_COUNT && Witnessed(b, i, p)
    ensures Witnessed(c, i, p)
  {
    var j :| 0 <= j < ENTRY_COUNT && j != i && b[j].IsSet() && Pos(b[j].c) == p
      && SharesUnit(j / COL_COUNT, j % COL_COUNT, i / COL_COUNT, i % COL_COUNT);
    assert Refines(b[j], c[j]);
  }

  /** Forced eliminations compose. */
  lemma ForcedTransitive(a: seq<Cell>, b: seq<Cell>, c: seq<Cell>)
    requires Evolves(a, b) && Evolves(b, c) && Forced(a, b) && Forced(b, c)
    ensures Forced(a, c)
  {
    forall i, p | 0 <= i < ENTRY_COUNT && p in a[i].opt.bits && p !in c[i].opt.bits
      ensures Witnessed(c, i, p)
    {
      if p !in b[i].opt.bits {
        WitnessedPersists(b, c, i, p);
      }
    }
  }

  /** Justified changes compose. */
  lemma JustifiedTransitive(a: seq<Cell>, b: seq<Cell>, c: seq<Cell>)
    requires Evolves(a, b) && Evolves(b, c) && Justified(a, b) && Justified(b, c)
    ensures Justified(a, c)
  {
    forall i, p | 0 <= i < ENTRY_COUNT && p in a[i].opt.bits && p !in c[i].opt.bits
      ensures Witnessed(c, i, p) || (c[i].IsSet() && !a[i].IsSet())
    {
      assert Refines(a[i], b[i]) && Refines(b[i], c[i]);
      if p !in b[i].opt.bits && Witnessed(b, i, p) {
        WitnessedPersists(b, c, i, p);
      }
    }
  }

  /** Forced eliminations are justified ones. */
  lemma ForcedJustified(a: seq<Cell>, b: seq<Cell>)
    requires |a| == ENTRY_COUNT && |b| == ENTRY_COUNT && Forced(a, b)
    ensures Justified(a, b)
  {
  }

  /** Assigning an unassigned cell, the step a deduction takes, is justified. */
  lemma AssignJustified(a: seq<Cell>, b: seq<Cell>, t: nat)
    requires |a| == ENTRY_COUNT && |b| == ENTRY_COUNT && t < ENTRY_COUNT
    requires !a[t].IsSet() && b[t].IsSet() && forall i | 0 <= i < ENTRY_COUNT && i != t :: b[i] == a[i]
    ensures Justified(a, b)
  {
  }

  /** Kept solutions and forced eliminations compose together. */
  lemma CascadeTransitive(a: seq<Cell>, b: seq<Cell>, c: seq<Cell>)
    requires Evolves(a, b) && Evolves(b, c)
    requires KeepsSolutions(a, b) && KeepsSolutions(b, c) && Forced(a, b) && Forced(b, c)
    ensures KeepsSolutions(a, c) && Forced(a, c)
  {
    KeepsSolutionsTransitive(a, b, c);
    ForcedTransitive(a, b, c);
  }

  /** Refinement, kept solutions and justified eliminations compose together. */
  lemma SoundTransitive(a: seq<Cell>, b: seq<Cell>, c: seq<Cell>)
    requires Evolves(a, b) && Evolves(b, c)
    requires KeepsSolutions(a, b) && KeepsSolutions(b, c) && Justified(a, b) && Justified(b, c)
    ensures Evolves(a, c) && KeepsSolutions(a, c) && Justified(a, c)
  {
    EvolvesTransitive(a, b, c);
    KeepsSolutionsTransitive(a, b, c);
    JustifiedTransitive(a, b, c);
  }

  /** `propagate_apply` on cell t with the digit of an assigned cell j of the same
      row, column or box extends forced eliminations. */
  lemma ForcedStep(a: seq<Cell>, prev: seq<Cell>, t: nat, j: nat)
    requires WellFormed(prev) && Evolves(a, prev) && Forced(a, prev)
    requires t < ENTRY_COUNT && j < ENTRY_COUNT && prev[j].IsSet()
    requires SharesUnit(j / COL_COUNT, j % COL_COUNT, t / COL_COUNT, t % COL_COUNT)
    ensures var cells := prev[t := Eliminated(prev[t], prev[j].c)];
      Evolves(a, cells) && Forced(a, cells)
  {
    var cells := prev[t := Eliminated(prev[t], prev[j].c)];
    assert Evolves(prev, cells);
    EvolvesTransitive(a, prev, cells);
    forall i, p | 0 <= i < ENTRY_COUNT && p in a[i].opt.bits && p !in cells[i].opt.bits
      ensures Witnessed(cells, i, p)
    {
      if p !in prev[i].opt.bits {
        WitnessedPersists(prev, cells, i, p);
      } else {
        assert i == t && !prev[t].IsSet() && p == Pos(prev[j].c);
        assert cells[j] == prev[j];
      }
    }
  }

  /** Some cell of the row, column or box of (row, col), depending on `unit`,
      holds `d`. */
  ghost predicate UnitHolds(sol: seq<char>, unit: Unit, row: nat, col: nat, d: char)
    requires |sol| == ENTRY_COUNT && row < ROW_COUNT && col < COL_COUNT
  {
    exists k | 0 <= k < 9 :: sol[VisitedIndex(unit, row, col, k)] == d
  }

  /** A completed grid: 81 digits, with every digit exactly once in each row,
      column and box. */
  ghost predicate IsSolution(sol: seq<char>) {
    && |sol| == ENTRY_COUNT
    && (forall i | 0 <= i < ENTRY_COUNT :: IsDigit(sol[i]))
    && (forall i, j | 0 <= i < ENTRY_COUNT && 0 <= j < ENTRY_COUNT && i != j
          && SharesUnit(i / COL_COUNT, i % COL_COUNT, j / COL_COUNT, j % COL_COUNT) :: sol[i] != sol[j])
    && (forall unit: Unit, row: nat, col: nat, d: char | row < ROW_COUNT && col < COL_COUNT && IsDigit(d) ::
          UnitHolds(sol, unit, row, col, d))
  }

  /** The board still allows the completed grid `sol`: every cell keeps the
      solution's digit as a candidate. */
  ghost predicate Agrees(sol: seq<char>, cells: seq<Cell>)
    requires IsSolution(sol) && |cells| == ENTRY_COUNT
  {
    forall i | 0 <= i < ENTRY_COUNT :: cells[i].opt.Has(sol[i])
  }

  /** The engine's soundness: every completed grid the board `before` allows is
      still allowed by `after`. No candidate a solution needs is ever removed,
      and no cell is assigned a digit other than the solution's. */
  ghost predicate KeepsSolutions(before: seq<Cell>, after: seq<Cell>)
    requires |before| == ENTRY_COUNT && |after| == ENTRY_COUNT
  {
    forall sol | IsSolution(sol) && Agrees(sol, before) :: Agrees(sol, after)
  }

  /** On a board that keeps the cell invariant, an assigned cell that allows the
      solution holds the solution's digit. */
  lemma AgreesAssigned(sol: seq<char>, cells: seq<Cell>, i: nat)
    requires IsSolution(sol) && WellFormed(cells) && Agrees(sol, cells) && i < ENTRY_COUNT
    ensures cells[i].IsSet() ==> cells[i].c == sol[i]
  {
    assert cells[i].Consistent() && cells[i].opt.Has(sol[i]);
  }

  /** Soundness composes. */
  lemma KeepsSolutionsTransitive(a: seq<Cell>, b: seq<Cell>, c: seq<Cell>)
    requires |a| == ENTRY_COUNT && |b| == ENTRY_COUNT && |c| == ENTRY_COUNT
    requires KeepsSolutions(a, b) && KeepsSolutions(b, c)
    ensures KeepsSolutions(a, c)
  {
  }

  /** `propagate_apply` on cell i with the digit of an assigned cell j of the same
      row, column or box is sound: a solution holds that digit at j, so it holds
      another one at i. */
  lemma EliminationSound(cells: seq<Cell>, i: nat, j: nat)
    requires WellFormed(cells) && i < ENTRY_COUNT && j < ENTRY_COUNT && cells[j].IsSet()
    requires SharesUnit(j / COL_COUNT, j % COL_COUNT, i / COL_COUNT, i % COL_COUNT)
    ensures KeepsSolutions(cells, cells[i := Eliminated(cells[i], cells[j].c)])
  {
    var after := cells[i := Eliminated(cells[i], cells[j].c)];
    forall sol | IsSolution(sol) && Agrees(sol, cells) ensures Agrees(sol, after) {
      if !cells[i].IsSet() {
        AgreesAssigned(sol, cells, j);
        assert sol[i] != sol[j];
        assert after[i].opt.Has(sol[i]);
      }
    }
  }

  /** On a fully propagated board, an assigned cell of the same row, column or box
      has removed its digit from cell (row, col), unless that cell is assigned. */
  lemma PeerExcludes(cells: seq<Cell>, v: nat, row: nat, col: nat)
    requires WellFormed(cells) && FullyPropagated(cells) && v < ENTRY_COUNT && row < ROW_COUNT && col < COL_COUNT
    requires SharesUnit(row, col, v / COL_COUNT, v % COL_COUNT)
    ensures cells[v].IsSet() ==> Excludes(cells, IndexAtEntry(row, col), cells[v].c)
  {
    if cells[v].IsSet() {
      assert Propagated(cells, v / COL_COUNT, v % COL_COUNT);
      IndexAtEntryOnto(IndexAtEntry(row, col));
    }
  }

  /** A walk that leaves one option finds the solution's digit, for every solution
      the board allows, when the board is fully propagated. The box walk counts
      only on the diagonal, where its skip test skips the cell itself. */
  lemma WalkSound(cells: seq<Cell>, unit: Unit, row: nat, col: nat, sol: seq<char>)
    requires WellFormed(cells) && FullyPropagated(cells) && row < ROW_COUNT && col < COL_COUNT
    requires !At(cells, row, col).IsSet() && (unit == Box ==> row == col)
    requires Walk(cells, unit, row, col, 9).HasOneOption()
    requires IsSolution(sol) && Agrees(sol, cells)
    ensures sol[IndexAtEntry(row, col)] == Walk(cells, unit, row, col, 9).GetLastOption()
  {
    var i := IndexAtEntry(row, col);
    var d := Walk(cells, unit, row, col, 9).GetLastOption();
    WalkSingleton(cells, unit, row, col);
    assert UnitHolds(sol, unit, row, col, d);
    var k: nat :| k < 9 && sol[VisitedIndex(unit, row, col, k)] == d;
    var v := VisitedIndex(unit, row, col, k);
    if unit == Box {
      BoxWalkOnDiagonal(cells, row);
    }
    AgreesAssigned(sol, cells, v);
    VisitedSharesUnit(unit, row, col, k);
    IndexAtEntryOnto(v);
    // The cell holding d in the solution is not an assigned peer: that one
    // would have removed d from this cell.
    PeerExcludes(cells, v, row, col);
    // Nor an unassigned peer: the walk would have subtracted its mask.
    assert v != i ==> !Skipped(unit, row, col, k);
    assert v == i;
  }

  /** Assigning the digit `Deduction` finds is sound on a fully propagated board. */
  lemma DeductionSound(cells: seq<Cell>, row: nat, col: nat)
    requires WellFormed(cells) && FullyPropagated(cells) && row < ROW_COUNT && col < COL_COUNT
    requires !At(cells, row, col).IsSet() && Deduction(cells, row, col).Some?
    ensures var i := IndexAtEntry(row, col);
      KeepsSolutions(cells, cells[i := cells[i].Set(Deduction(cells, row, col).value)])
  {
    var i := IndexAtEntry(row, col);
    var d := Deduction(cells, row, col).value;
    var after := cells[i := cells[i].Set(d)];
    forall sol | IsSolution(sol) && Agrees(sol, cells) ensures Agrees(sol, after) {
      if Walk(cells, Row, row, col, 9).HasOneOption() {
        WalkSound(cells, Row, row, col, sol);
      } else if Walk(cells, Column, row, col, 9).HasOneOption() {
        WalkSound(cells, Column, row, col, sol);
      } else {
        if row != col {
          BoxWalkEmptyOffDiagonal(cells, row, col);
        }
        WalkSound(cells, Box, row, col, sol);
      }
      assert sol[i] == d;
    }
  }

  /** On a fully assigned board that allows a solution, the board is that
      solution; so a solved board allows at most one. */
  lemma SolvedIsSolution(cells: seq<Cell>, sol: seq<char>)
    requires WellFormed(cells) && Solved(cells) && IsSolution(sol) && Agrees(sol, cells)
    ensures forall i | 0 <= i < ENTRY_COUNT :: cells[i].c == sol[i]
  {
    forall i | 0 <= i < ENTRY_COUNT ensures cells[i].c == sol[i] {
      AgreesAssigned(sol, cells, i);
    }
  }

  /** The characters that move `load`'s cursor: a digit or `*`. */
  predicate IsToken(c: char) {
    IsDigit(c) || c == '*'
  }

  /** The tokens of `text` in order; every other character is skipped. */
  function Tokens(text: seq<char>): (t: seq<char>)
    ensures |t| <= |text|
    ensures forall j | 0 <= j < |t| :: IsToken(t[j])
  {
    if text == [] then []
    else
      var init := Tokens(text[..|text| - 1]);
      if IsToken(text[|text| - 1]) then init + [text[|text| - 1]] else init
  }

  /** Scanning a prefix of the text yields a prefix of its tokens. */
  lemma {:induction false} TokensPrefix(text: seq<char>, n: nat)
    requires n <= |text|
    ensures Tokens(text[..n]) <= Tokens(text)
  {
    if n < |text| {
      var init := text[..|text| - 1];
      TokensPrefix(init, n);
      assert init[..n] == text[..n];
    } else {
      assert text[..n] == text;
    }
  }

  /** A text made only of tokens is its own token sequence. */
  lemma {:induction false} TokensOfTokens(text: seq<char>)
    requires forall j | 0 <= j < |text| :: IsToken(text[j])
    ensures Tokens(text) == text
  {
    if text != [] {
      var init := text[..|text| - 1];
      TokensOfTokens(init);
      assert init + [text[|text| - 1]] == text;
    }
  }

  /** Cell i of the board `load` leaves after reading `tokens`: the i-th token
      when it is a digit, a cleared cell for `*` or past the last token. */
  function LoadedCell(tokens: seq<char>, i: nat): (cell: Cell)
    ensures cell.Consistent()
  {
    if i < |tokens| && IsDigit(tokens[i]) then Cell.New().Set(tokens[i]) else Cell.New()
  }

  /** The board `load` leaves after reading `tokens`: the first 81 tokens fill the
      cells in row-major order, a digit assigns its cell and `*` leaves it cleared;
      cells past the last token stay cleared. */
  function Loaded(tokens: seq<char>): (cells: seq<Cell>)
    ensures WellFormed(cells)
  {
    seq(ENTRY_COUNT, i requires 0 <= i < ENTRY_COUNT => LoadedCell(tokens, i))
  }

  /** One more character of the text adds itself to the tokens when it is a token. */
  lemma TokensStep(text: seq<char>, t: nat)
    requires t < |text|
    ensures Tokens(text[..t + 1]) == Tokens(text[..t]) + (if IsToken(text[t]) then [text[t]] else [])
  {
    assert text[..t + 1][..t] == text[..t];
  }

  /** Reading one more token below the 81st fills exactly the next cell. */
  lemma LoadedPush(tokens: seq<char>, c: char)
    requires |tokens| < ENTRY_COUNT
    ensures forall i | 0 <= i < ENTRY_COUNT ::
      LoadedCell(tokens + [c], i) == (if i == |tokens| then LoadedCell([c], 0) else LoadedCell(tokens, i))
  {
  }

  /** Tokens past the 81st do not reach the board. */
  lemma LoadedPrefix(a: seq<char>, b: seq<char>)
    requires a <= b && ENTRY_COUNT <= |a|
    ensures forall i | 0 <= i < ENTRY_COUNT :: LoadedCell(a, i) == LoadedCell(b, i)
  {
  }

  /** Loading 81 digits assigns every cell, cell i holding the i-th digit. */
  lemma LoadedDigits(text: seq<char>)
    requires |text| == ENTRY_COUNT && forall j | 0 <= j < |text| :: IsDigit(text[j])
    ensures Tokens(text) == text
    ensures forall i | 0 <= i < ENTRY_COUNT :: Loaded(Tokens(text))[i].IsSet() && Loaded(Tokens(text))[i].c == text[i]
    ensures Solved(Loaded(Tokens(text)))
  {
    TokensOfTokens(text);
  }
}
