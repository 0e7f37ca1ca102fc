/** The solver object: a 9×9 arrangement of cells, its unit accessors and
    tests, the checked commit, candidate recomputation, the four deduction
    rules and the driver loop, each proved to act on the board as the
    corresponding function of `Grid` and `Rules` does. */
module SodukuSolver {
  import opened Cells
  import opened Grid
  import opened Rules

  /** The per-digit table of the candidate lists `cs` of the cells of one
      unit: for each digit, the ascending positions whose list holds it. */
  method TabulateLists(unit: seq<Cell>, ghost cs: seq<seq<int>>) returns (candidatePosition: map<int, seq<int>>)
    requires |unit| == 9 && |cs| == 9
    requires forall p :: 0 <= p < 9 ==> unit[p].candidates == cs[p] && DigitList(cs[p])
    ensures Table(candidatePosition)
    ensures forall d :: 1 <= d <= 9 ==> candidatePosition[d] == Positions(cs, d, |cs|)
  {
    candidatePosition := map[1 := [], 2 := [], 3 := [], 4 := [], 5 := [], 6 := [], 7 := [], 8 := [], 9 := []];
    for p := 0 to 9
      invariant forall d :: 1 <= d <= 9 ==> d in candidatePosition && candidatePosition[d] == Positions(cs, d, p)
    {
      candidatePosition := RecordCandidates(candidatePosition, unit[p].candidates, p, cs);
    }
    assert Table(candidatePosition) by {
      forall d | 1 <= d <= 9 ensures PositionList(candidatePosition[d]) {
        assert candidatePosition[d] == Positions(cs, d, 9);
      }
    }
  }

  /** Appends position `p` to the table entry of every candidate in
      `candidates`, the candidate list at position `p`: the table then
      covers positions 0 .. p. */
  method RecordCandidates(table: map<int, seq<int>>, candidates: seq<int>, p: int, ghost cs: seq<seq<int>>)
    returns (table': map<int, seq<int>>)
    requires 0 <= p < |cs| && cs[p] == candidates && DigitList(candidates)
    requires forall d :: 1 <= d <= 9 ==> d in table && table[d] == Positions(cs, d, p)
    ensures forall d :: 1 <= d <= 9 ==> d in table' && table'[d] == Positions(cs, d, p + 1)
  {
    table' := table;
    for t := 0 to |candidates|
      invariant forall d :: 1 <= d <= 9 ==>
        d in table' && table'[d] == Positions(cs, d, p) + if d in candidates[..t] then [p] else []
    {
      assert candidates[..t + 1] == candidates[..t] + [candidates[t]];
      table' := table'[candidates[t] := table'[candidates[t]] + [p]];
    }
    assert candidates[..|candidates|] == candidates;
  }

  class Soduku {
    /** The 81 cells, row-major. The arrangement never changes; the cells do. */
    const cells: seq<Cell>

    /** The fixed facts of the arrangement: 81 distinct cells, each at its
        own row, column and block. */
    ghost predicate Layout() {
      && |cells| == 81
      && (forall i, j :: 0 <= i < j < 81 ==> cells[i] != cells[j])
      && forall r, c :: 0 <= r < 9 && 0 <= c < 9 ==> cells[Index(r, c)].row == r && cells[Index(r, c)].col == c
    }

    /** Each cell records the block it lies in. Nothing reads these fields
        once they are set, so this is kept apart from `Valid`. */
    ghost predicate BlockIndexed()
      requires Layout()
    {
      forall r, c :: 0 <= r < 9 && 0 <= c < 9 ==>
        cells[Index(r, c)].blockRow == r / 3 && cells[Index(r, c)].blockCol == c / 3
    }

    ghost predicate Valid()
      reads cells
    {
      Layout() && forall i :: 0 <= i < 81 ==> cells[i].Valid()
    }

    /** The board the cells currently hold. */
    function State(): (b: Board)
      reads cells
      requires |cells| == 81
      ensures |b| == 81 && forall i :: 0 <= i < 81 ==> b[i] == cells[i].State()
    {
      seq(81, i reads cells requires 0 <= i < 81 => cells[i].State())
    }

    lemma StateWellFormed()
      requires Valid()
      ensures WellFormed(State())
    {
    }

    /** Builds one cell per entry of `raw`, row by row. */
    static method InitCell(raw: seq<int>) returns (puzzle: seq<Cell>)
      requires |raw| == 81
      ensures |puzzle| == 81
      ensures forall i, j :: 0 <= i < j < 81 ==> puzzle[i] != puzzle[j]
      ensures forall i :: 0 <= i < 81 ==> fresh(puzzle[i])
      ensures forall r, c :: 0 <= r < 9 && 0 <= c < 9 ==> puzzle[Index(r, c)].row == r && puzzle[Index(r, c)].col == c
      ensures forall r, c :: 0 <= r < 9 && 0 <= c < 9 ==>
        puzzle[Index(r, c)].blockRow == r / 3 && puzzle[Index(r, c)].blockCol == c / 3
      ensures forall i :: 0 <= i < 81 ==> puzzle[i].Valid() && puzzle[i].State() == Initial(raw[i])
    {
      puzzle := [];
      for irow := 0 to 9
        invariant |puzzle| == irow * 9
        invariant forall i, j :: 0 <= i < j < |puzzle| ==> puzzle[i] != puzzle[j]
        invariant forall i :: 0 <= i < |puzzle| ==> fresh(puzzle[i])
        invariant forall r, c :: 0 <= r < irow && 0 <= c < 9 ==> puzzle[Index(r, c)].row == r && puzzle[Index(r, c)].col == c
        invariant forall r, c :: 0 <= r < irow && 0 <= c < 9 ==>
          puzzle[Index(r, c)].blockRow == r / 3 && puzzle[Index(r, c)].blockCol == c / 3
        invariant forall i :: 0 <= i < |puzzle| ==> puzzle[i].Valid() && puzzle[i].State() == Initial(raw[i])
      {
        puzzle := InitRow(raw, irow, puzzle);
      }
    }

    /** Appends the cells of row `irow` to `puzzle`, which holds the rows
        above it. */
    static method InitRow(raw: seq<int>, irow: int, puzzle: seq<Cell>) returns (puzzle': seq<Cell>)
      requires |raw| == 81 && 0 <= irow < 9 && |puzzle| == irow * 9
      ensures |puzzle'| == irow * 9 + 9 && puzzle'[..irow * 9] == puzzle
      ensures forall i, j :: irow * 9 <= i < j < |puzzle'| ==> puzzle'[i] != puzzle'[j]
      ensures forall i :: irow * 9 <= i < |puzzle'| ==> fresh(puzzle'[i])
      ensures forall c :: 0 <= c < 9 ==> puzzle'[Index(irow, c)].row == irow && puzzle'[Index(irow, c)].col == c
      ensures forall c :: 0 <= c < 9 ==>
        puzzle'[Index(irow, c)].blockRow == irow / 3 && puzzle'[Index(irow, c)].blockCol == c / 3
      ensures forall i :: irow * 9 <= i < |puzzle'| ==> puzzle'[i].Valid() && puzzle'[i].State() == Initial(raw[i])
    {
      puzzle' := puzzle;
      for icol := 0 to 9
        invariant |puzzle'| == irow * 9 + icol && puzzle'[..irow * 9] == puzzle
        invariant forall i, j :: irow * 9 <= i < j < |puzzle'| ==> puzzle'[i] != puzzle'[j]
        invariant forall i :: irow * 9 <= i < |puzzle'| ==> fresh(puzzle'[i])
        invariant forall c :: 0 <= c < icol ==> puzzle'[Index(irow, c)].row == irow && puzzle'[Index(irow, c)].col == c
        invariant forall c :: 0 <= c < icol ==>
          puzzle'[Index(irow, c)].blockRow == irow / 3 && puzzle'[Index(irow, c)].blockCol == c / 3
        invariant forall i :: irow * 9 <= i < |puzzle'| ==> puzzle'[i].Valid() && puzzle'[i].State() == Initial(raw[i])
      {
        var num := raw[Index(irow, icol)];
        var cell := new Cell(irow, icol, num);
        puzzle' := puzzle' + [cell];
      }
    }

    /** The puzzle given as 81 numbers, row-major, 0 for an empty square. */
    constructor (raw: seq<int>)
      requires |raw| == 81
      ensures Valid() && BlockIndexed()
      ensures State() == seq(81, i requires 0 <= i < 81 => Initial(raw[i]))
    {
      var puzzle := Soduku.InitCell(raw);
      cells := puzzle;
    }

    function GetCell(irow: int, icol: int): (cell: Cell)
      requires Layout() && 0 <= irow < 9 && 0 <= icol < 9
      ensures cell == cells[Index(irow, icol)] && cell.row == irow && cell.col == icol
    {
      cells[irow * 9 + icol]
    }

    /** Row `irow`, left to right. */
    function GetRow(irow: int): (row: seq<Cell>)
      requires Layout() && 0 <= irow < 9
      ensures |row| == 9
      ensures forall p :: 0 <= p < 9 ==> row[p] == cells[UnitCell(Row, irow, p)]
      ensures forall p :: 0 <= p < 9 ==> row[p].row == irow && row[p].col == p
    {
      cells[irow * 9 .. irow * 9 + 9]
    }

    /** Column `icol`, top to bottom. */
    function GetCol(icol: int): (col: seq<Cell>)
      requires Layout() && 0 <= icol < 9
      ensures |col| == 9
      ensures forall p :: 0 <= p < 9 ==> col[p] == cells[UnitCell(Col, icol, p)]
      ensures forall p :: 0 <= p < 9 ==> col[p].row == p && col[p].col == icol
    {
      seq(9, p requires 0 <= p < 9 => cells[p * 9 + icol])
    }

    /** Block (blockRow, blockCol), flattened row-major. */
    function GetBlock(blockRow: int, blockCol: int): (block: seq<Cell>)
      requires Layout() && 0 <= blockRow < 3 && 0 <= blockCol < 3
      ensures |block| == 9
      ensures forall p :: 0 <= p < 9 ==> block[p] == cells[Index(blockRow * 3 + p / 3, blockCol * 3 + p % 3)]
    {
      var irow, icol := blockRow * 3, blockCol * 3;
      seq(9, p requires 0 <= p < 9 => cells[Index(irow + p / 3, icol + p % 3)])
    }

    /** Every cell the block accessor yields lies in that block and records
        it as its block. */
    lemma BlockCellsInBlock(blockRow: int, blockCol: int)
      requires Layout() && BlockIndexed() && 0 <= blockRow < 3 && 0 <= blockCol < 3
      ensures forall p :: 0 <= p < 9 ==>
        GetBlock(blockRow, blockCol)[p].row / 3 == blockRow && GetBlock(blockRow, blockCol)[p].col / 3 == blockCol
      ensures forall p :: 0 <= p < 9 ==>
        GetBlock(blockRow, blockCol)[p].blockRow == blockRow && GetBlock(blockRow, blockCol)[p].blockCol == blockCol
    {
      var block := GetBlock(blockRow, blockCol);
      forall p | 0 <= p < 9
        ensures block[p].row / 3 == blockRow && block[p].col / 3 == blockCol
        ensures block[p].blockRow == blockRow && block[p].blockCol == blockCol
      {
        BlockCell(blockRow, blockCol, p);
      }
    }

    /** Scanning the cells of a unit for `num` is asking whether the board
        holds `num` in that unit. */
    lemma UnitHolds(kind: UnitKind, u: int, unit: seq<Cell>, num: int)
      requires Layout() && 0 <= u < 9 && |unit| == 9
      requires forall p :: 0 <= p < 9 ==> unit[p] == cells[UnitCell(kind, u, p)]
      ensures (exists p :: 0 <= p < 9 && unit[p].number == num) <==> InUnit(State(), kind, u, num)
    {
      var b := State();
      if exists p :: 0 <= p < 9 && unit[p].number == num {
        var p :| 0 <= p < 9 && unit[p].number == num;
        assert b[UnitCell(kind, u, p)].number == num;
      }
      if InUnit(b, kind, u, num) {
        var p :| 0 <= p < 9 && b[UnitCell(kind, u, p)].number == num;
        assert unit[p].number == num;
      }
    }

    /** The block accessor yields block unit blockRow * 3 + blockCol. */
    lemma BlockIsUnit(blockRow: int, blockCol: int)
      requires Layout() && 0 <= blockRow < 3 && 0 <= blockCol < 3
      ensures forall p :: 0 <= p < 9 ==> GetBlock(blockRow, blockCol)[p] == cells[UnitCell(Block, blockRow * 3 + blockCol, p)]
    {
      var block := GetBlock(blockRow, blockCol);
      forall p | 0 <= p < 9 ensures block[p] == cells[UnitCell(Block, blockRow * 3 + blockCol, p)] {
        BlockCell(blockRow, blockCol, p);
      }
    }

    /** Some cell of row `irow` holds `num`. */
    predicate CheckInRow(irow: int, num: int)
      reads cells
      requires Layout() && 0 <= irow < 9
      ensures CheckInRow(irow, num) <==> InUnit(State(), Row, irow, num)
    {
      var row := GetRow(irow);
      UnitHolds(Row, irow, row, num);
      exists p :: 0 <= p < 9 && row[p].number == num
    }

    /** Some cell of column `icol` holds `num`. */
    predicate CheckInCol(icol: int, num: int)
      reads cells
      requires Layout() && 0 <= icol < 9
      ensures CheckInCol(icol, num) <==> InUnit(State(), Col, icol, num)
    {
      var col := GetCol(icol);
      UnitHolds(Col, icol, col, num);
      exists p :: 0 <= p < 9 && col[p].number == num
    }

    /** Some cell of the block holding (irow, icol) holds `num`. */
    predicate CheckInBlock(irow: int, icol: int, num: int)
      reads cells
      requires Layout() && 0 <= irow < 9 && 0 <= icol < 9
      ensures CheckInBlock(irow, icol, num) <==> InUnit(State(), Block, BlockOf(irow, icol), num)
    {
      BlockHolds(irow, icol, num);
      var block := GetBlock(irow / 3, icol / 3);
      exists p :: 0 <= p < 9 && block[p].number == num
    }

    /** Scanning the block accessor's cells is asking whether the block
        holding (irow, icol) holds `num`. */
    lemma BlockHolds(irow: int, icol: int, num: int)
      requires Layout() && 0 <= irow < 9 && 0 <= icol < 9
      ensures 0 <= irow / 3 < 3 && 0 <= icol / 3 < 3
      ensures (exists p :: 0 <= p < 9 && GetBlock(irow / 3, icol / 3)[p].number == num)
        <==> InUnit(State(), Block, BlockOf(irow, icol), num)
    {
      var blockRow, blockCol := irow / 3, icol / 3;
      BlockIsUnit(blockRow, blockCol);
      assert BlockOf(irow, icol) == blockRow * 3 + blockCol;
      UnitHolds(Block, blockRow * 3 + blockCol, GetBlock(blockRow, blockCol), num);
    }

    /** `num` may be written at (irow, icol): the cell is free and no cell of
        its row, column or block holds `num`. */
    predicate CheckNumValid(irow: int, icol: int, num: int)
      reads cells
      requires Layout() && 0 <= irow < 9 && 0 <= icol < 9
      ensures CheckNumValid(irow, icol, num) <==> Legal(State(), irow, icol, num)
    {
      !GetCell(irow, icol).occupied && !CheckInRow(irow, num) && !CheckInCol(icol, num)
      && !CheckInBlock(irow, icol, num)
    }

    /** No cell holds 0. */
    predicate IsCompleted()
      reads cells
      requires Layout()
      ensures IsCompleted() <==> Completed(State())
    {
      forall i :: 0 <= i < 81 ==> cells[i].number != 0
    }

    /** The checked commit: writes `num` at (irow, icol) when the legality
        test passes; otherwise fails (the source raises) and changes
        nothing. */
    method SetCell(irow: int, icol: int, num: int) returns (ok: bool)
      requires Valid() && 0 <= irow < 9 && 0 <= icol < 9
      modifies cells
      ensures Valid()
      ensures ok <==> Place(old(State()), irow, icol, num).Some?
      ensures State() == if ok then Place(old(State()), irow, icol, num).value else old(State())
      ensures ok ==> State() == old(State())[Index(irow, icol) := Filled(num)]
    {
      StateWellFormed();
      PlaceIffLegal(State(), irow, icol, num);
      if CheckNumValid(irow, icol, num) {
        LegalIsNonzero(State(), irow, icol, num);
        var filled := GetCell(irow, icol).FillNumber(num);
        ok := true;
      } else {
        ok := false;
      }
    }

    /** Replaces the candidate list of (irow, icol) by the digits legal
        there, tried in ascending order; no other cell changes. */
    method SetCellCandidates(irow: int, icol: int)
      requires Valid() && 0 <= irow < 9 && 0 <= icol < 9
      modifies cells
      ensures Valid()
      ensures State() == old(State())[Index(irow, icol) := Recomputed(old(State()), Index(irow, icol))]
    {
      var candidateList := LegalCandidates(irow, icol);
      RecomputedAt(State(), irow, icol);
      RecomputedInv(State(), Index(irow, icol));
      GetCell(irow, icol).SetCandidates(candidateList);
    }

    /** The digits 1 .. 9 that pass the legality test at (irow, icol), in
        the order they are tried. */
    method LegalCandidates(irow: int, icol: int) returns (candidateList: seq<int>)
      requires Layout() && 0 <= irow < 9 && 0 <= icol < 9
      ensures candidateList == LegalDigits(State(), irow, icol)
    {
      candidateList := [];
      for i := 1 to 10
        invariant candidateList == LegalBelow(State(), irow, icol, i)
      {
        LegalBelowNext(State(), irow, icol, i);
        candidateList := AppendIfValid(irow, icol, i, candidateList);
      }
    }

    /** Appends `num` to `candidateList` when it may be written at (irow, icol). */
    method AppendIfValid(irow: int, icol: int, num: int, candidateList: seq<int>) returns (candidateList': seq<int>)
      requires Layout() && 0 <= irow < 9 && 0 <= icol < 9
      ensures candidateList' == candidateList + if Legal(State(), irow, icol, num) then [num] else []
    {
      candidateList' := candidateList;
      if CheckNumValid(irow, icol, num) {
        candidateList' := candidateList' + [num];
      }
    }

    /** Recomputes every candidate list, row by row. */
    method SetAllCandidates()
      requires Valid()
      modifies cells
      ensures Valid()
      ensures State() == Recompute(old(State()))
    {
      ghost var b0 := State();
      for irow := 0 to 9
        invariant Valid()
        invariant forall j :: 0 <= j < 81 ==> State()[j] == if j < irow * 9 then Recomputed(b0, j) else b0[j]
      {
        for icol := 0 to 9
          invariant Valid()
          invariant forall j :: 0 <= j < 81 ==> State()[j] == if j < irow * 9 + icol then Recomputed(b0, j) else b0[j]
        {
          RecomputedSameFill(b0, State(), Index(irow, icol));
          SetCellCandidates(irow, icol);
        }
      }
      forall j | 0 <= j < 81 ensures State()[j] == Recompute(b0)[j] {
        RecomputeAt(b0, j);
      }
    }

    /** Commits the sole candidate of (irow, icol), as the cell itself does;
        no other cell changes. */
    method ConfirmCell(irow: int, icol: int) returns (confirmed: bool)
      requires Valid() && 0 <= irow < 9 && 0 <= icol < 9 && CountsAgree(State())
      modifies cells
      ensures Valid()
      ensures var k := Index(irow, icol);
        State() == old(State())[k := Confirm(old(State())[k]).0] && confirmed == Confirm(old(State())[k]).1
    {
      var currCell := GetCell(irow, icol);
      confirmed := currCell.ConfirmCandidates();
    }

    /** One sweep of the forced-single rule: commits, row by row, every
        unoccupied cell with a sole candidate, counting the commits; the
        flag `applied` is raised once the count is positive. */
    method ConfirmAll(appliedBefore: bool) returns (changes: int, applied: bool)
      requires Valid() && CountsAgree(State())
      modifies cells
      ensures Valid()
      ensures State() == Sweep(old(State()))
      ensures changes >= 0 && (changes > 0 <==> AnyForced(old(State())))
      ensures applied <==> appliedBefore || changes > 0
    {
      ghost var r := State();
      changes, applied := 0, appliedBefore;
      for irow := 0 to 9
        invariant Valid()
        invariant forall j :: 0 <= j < 81 ==> State()[j] == if j < irow * 9 then Confirm(r[j]).0 else r[j]
        invariant changes >= 0 && (changes > 0 <==> exists j :: 0 <= j < irow * 9 && Confirm(r[j]).1)
        invariant applied <==> appliedBefore || changes > 0
      {
        changes, applied := ConfirmRow(irow, r, changes, applied, appliedBefore);
      }
    }

    /** The sweep of row `irow`, the rows above it already swept from `r`;
        `appliedFirst` is the flag as the whole sweep began. */
    method ConfirmRow(irow: int, ghost r: Board, changesBefore: int, appliedBefore: bool, ghost appliedFirst: bool)
      returns (changes: int, applied: bool)
      requires Valid() && |r| == 81 && CountsAgree(r) && 0 <= irow < 9
      requires forall j :: 0 <= j < 81 ==> State()[j] == if j < irow * 9 then Confirm(r[j]).0 else r[j]
      requires changesBefore >= 0 && (changesBefore > 0 <==> exists j :: 0 <= j < irow * 9 && Confirm(r[j]).1)
      requires appliedBefore <==> appliedFirst || changesBefore > 0
      modifies cells
      ensures Valid()
      ensures forall j :: 0 <= j < 81 ==> State()[j] == if j < irow * 9 + 9 then Confirm(r[j]).0 else r[j]
      ensures changes >= 0 && (changes > 0 <==> exists j :: 0 <= j < irow * 9 + 9 && Confirm(r[j]).1)
      ensures applied <==> appliedFirst || changes > 0
    {
      changes, applied := changesBefore, appliedBefore;
      for icol := 0 to 9
        invariant Valid()
        invariant forall j :: 0 <= j < 81 ==> State()[j] == if j < irow * 9 + icol then Confirm(r[j]).0 else r[j]
        invariant changes >= 0 && (changes > 0 <==> exists j :: 0 <= j < irow * 9 + icol && Confirm(r[j]).1)
        invariant applied <==> appliedFirst || changes > 0
      {
        var confirmed := ConfirmCell(irow, icol);
        changes := changes + if confirmed then 1 else 0;
        if changes > 0 {
          applied := true;
        }
      }
    }

    /** The forced-single rule: until the board is completed, recompute all
        candidates and commit every cell with a sole candidate, stopping
        after a sweep that commits nothing. Reports whether any sweep
        committed a cell. */
    method SolverElimination() returns (applied: bool)
      requires Valid()
      modifies cells
      ensures Valid()
      ensures Step(State(), Done(applied)) == Eliminate(old(State()))
    {
      ghost var e0 := Eliminate(State());
      applied := false;
      while !IsCompleted()
        invariant Valid()
        invariant Eliminate(State()).board == e0.board
        invariant e0.status.changed <==> applied || Eliminate(State()).status.changed
        decreases |FreeCells(State())|
      {
        ghost var prev := State();
        EliminateRound(prev);
        SetAllCandidates();
        var changes;
        changes, applied := ConfirmAll(applied);
        if changes == 0 {
          break;
        }
      }
      assert e0 == Step(State(), Done(applied));
    }

    /** The cells of unit `u` of the given kind, in position order: a row,
        a column, or block (u / 3, u % 3) flattened. */
    function GetUnit(kind: UnitKind, u: int): (unit: seq<Cell>)
      requires Layout() && 0 <= u < 9
      ensures |unit| == 9 && forall p :: 0 <= p < 9 ==> unit[p] == cells[UnitCell(kind, u, p)]
    {
      match kind
      case Row => GetRow(u)
      case Col => GetCol(u)
      case Block =>
        var blockRow, blockCol := u / 3, u % 3;
        BlockSplit(u);
        BlockIsUnit(blockRow, blockCol);
        GetBlock(blockRow, blockCol)
    }

    /** The per-digit table of unit `u`: for each digit 1 .. 9, the
        ascending positions whose candidate list holds it. The unit's
        candidate lists are those of `R`. */
    method Tabulate(kind: UnitKind, u: int, ghost R: Board) returns (candidatePosition: map<int, seq<int>>)
      requires Valid() && |R| == 81 && 0 <= u < 9
      requires forall i :: 0 <= i < 81 && UnitOf(kind, i) == u ==> State()[i] == R[i]
      ensures Table(candidatePosition)
      ensures forall d :: 1 <= d <= 9 ==> candidatePosition[d] == UnitPositions(R, kind, u, d)
    {
      ghost var cs := UnitCandidates(R, kind, u);
      var unit := GetUnit(kind, u);
      forall p | 0 <= p < 9 ensures unit[p].candidates == cs[p] && DigitList(cs[p]) {
        UnitCellRoundTrip(kind, u, p);
      }
      candidatePosition := TabulateLists(unit, cs);
    }

    /** Commits digit `d` at its position in unit `u` when the table entry
        `position` holds exactly one position, counting the commit; a failed
        checked commit ends the rule. */
    method CommitUnique(kind: UnitKind, u: int, d: int, position: seq<int>, changeBefore: int)
      returns (change: int, raised: bool)
      requires Valid() && 0 <= u < 9 && PositionList(position) && changeBefore >= 0
      modifies cells
      ensures Valid() && change >= changeBefore
      ensures SameOutside(kind, u, old(State()), State())
      ensures Continue(Step(old(State()), Done(changeBefore > 0)), SingleAt(kind, u, d, position))
        == Step(State(), if raised then Raised else Done(change > 0))
    {
      change, raised := changeBefore, false;
      if |position| == 1 {
        ghost var S := State();
        var rc := Coords(kind, u, position[0]);
        var ok := SetCell(rc.0, rc.1, d);
        CommitStep(kind, u, d, position, S, changeBefore > 0, ok, State());
        if !ok {
          raised := true;
          return;
        }
        change := change + 1;
      }
    }

    /** The hidden-single rule on unit `u`: tabulate, per digit, the
        positions whose candidate list holds it, then commit through the
        checked commit every digit with exactly one position, in digit
        order. The unit's candidate lists are still those of `R`, the board
        the rule recomputed at its start. */
    method UniqueCandidateInUnit(kind: UnitKind, u: int, ghost R: Board, changeBefore: int)
      returns (change: int, raised: bool)
      requires Valid() && |R| == 81 && 0 <= u < 9 && changeBefore >= 0
      requires forall i :: 0 <= i < 81 && UnitOf(kind, i) == u ==> State()[i] == R[i]
      modifies cells
      ensures Valid() && change >= changeBefore
      ensures SameOutside(kind, u, old(State()), State())
      ensures RunEach(SinglesFrom(R, kind, u, 1), Step(old(State()), Done(changeBefore > 0)))
        == Step(State(), if raised then Raised else Done(change > 0))
    {
      var candidatePosition := Tabulate(kind, u, R);
      change, raised := CommitDigits(kind, u, candidatePosition, R, changeBefore);
    }

    /** The second half of the hidden-single rule on unit `u`: given the
        table of positions per digit, commits, in digit order, every digit
        with exactly one position. */
    method CommitDigits(kind: UnitKind, u: int, candidatePosition: map<int, seq<int>>, ghost R: Board, changeBefore: int)
      returns (change: int, raised: bool)
      requires Valid() && |R| == 81 && 0 <= u < 9 && Table(candidatePosition) && changeBefore >= 0
      requires forall d :: 1 <= d <= 9 ==> candidatePosition[d] == UnitPositions(R, kind, u, d)
      modifies cells
      ensures Valid() && change >= changeBefore
      ensures SameOutside(kind, u, old(State()), State())
      ensures RunEach(SinglesFrom(R, kind, u, 1), Step(old(State()), Done(changeBefore > 0)))
        == Step(State(), if raised then Raised else Done(change > 0))
    {
      TableSinglesAreSingles(R, kind, u, candidatePosition, 1);
      ghost var s0 := State();
      change := changeBefore;
      for d := 1 to 10
        invariant Valid() && change >= changeBefore
        invariant SameOutside(kind, u, s0, State())
        invariant RunEach(TableSinglesFrom(kind, u, candidatePosition, 1), Step(s0, Done(changeBefore > 0)))
          == RunEach(TableSinglesFrom(kind, u, candidatePosition, d), Step(State(), Done(change > 0)))
      {
        ghost var S := State();
        TableSinglesStep(kind, u, candidatePosition, d, Step(S, Done(change > 0)));
        change, raised := CommitUnique(kind, u, d, candidatePosition[d], change);
        SameOutsideTrans(kind, u, s0, S, State());
        if raised {
          return;
        }
      }
      assert TableSinglesFrom(kind, u, candidatePosition, 10) == [];
      raised := false;
    }

    /** One hidden-single rule over every unit of the given kind: recompute
        all candidate lists, then apply the per-unit rule to units 0 .. 8 in
        order, all planning from the lists recomputed at the start. A failed
        checked commit ends the rule. */
    method UniqueCandidate(kind: UnitKind) returns (status: Status)
      requires Valid()
      modifies cells
      ensures Valid()
      ensures Step(State(), status) == Rule(old(State()), kind)
    {
      ghost var b0 := State();
      SetAllCandidates();
      RuleIsApply(b0, kind);
      AllSinglesRun(State(), kind);
      status := UniqueCandidateInUnits(kind, State());
    }

    /** The per-unit rule applied to units 0 .. 8 in order, all planning
        from the candidate lists of `R`, the board as the rule found it. */
    method UniqueCandidateInUnits(kind: UnitKind, ghost R: Board) returns (status: Status)
      requires Valid() && State() == R
      modifies cells
      ensures Valid()
      ensures Step(State(), status) == RunEach(AllSinglesFrom(R, kind, 0), Step(R, Done(false)))
    {
      var change := 0;
      for u := 0 to 9
        invariant Valid() && change >= 0
        invariant forall i :: 0 <= i < 81 && UnitOf(kind, i) >= u ==> State()[i] == R[i]
        invariant RunEach(AllSinglesFrom(R, kind, 0), Step(R, Done(false)))
          == RunEach(AllSinglesFrom(R, kind, u), Step(State(), Done(change > 0)))
      {
        AllSinglesStep(R, kind, u, Step(State(), Done(change > 0)));
        var raised;
        change, raised := UniqueCandidateInUnit(kind, u, R, change);
        if raised {
          return Raised;
        }
      }
      assert AllSinglesFrom(R, kind, 9) == [];
      status := Done(change > 0);
    }

    /** The hidden-single rule on rows. */
    method SolverRowUniqueCandidate() returns (status: Status)
      requires Valid()
      modifies cells
      ensures Valid()
      ensures Step(State(), status) == Rule(old(State()), Row)
    {
      status := UniqueCandidate(Row);
    }

    /** The hidden-single rule on columns. */
    method SolverColUniqueCandidate() returns (status: Status)
      requires Valid()
      modifies cells
      ensures Valid()
      ensures Step(State(), status) == Rule(old(State()), Col)
    {
      status := UniqueCandidate(Col);
    }

    /** The hidden-single rule on blocks. */
    method SolverBlockUniqueCandidate() returns (status: Status)
      requires Valid()
      modifies cells
      ensures Valid()
      ensures Step(State(), status) == Rule(old(State()), Block)
    {
      status := UniqueCandidate(Block);
    }

    /** One round of the solver loop: forced singles, then the row, column
        and block rules. `applied` counts the routines that reported a
        change; a failed checked commit ends the round. */
    method SolverPass() returns (applied: int, raised: bool)
      requires Valid()
      modifies cells
      ensures Valid() && 0 <= applied <= 4
      ensures Step(State(), if raised then Raised else Done(applied > 0)) == Pass(old(State()))
    {
      var eliminated := SolverElimination();
      applied := if eliminated then 1 else 0;
      ghost var s := Step(State(), Done(eliminated));
      applied, raised := CountRule(Row, s, applied);
      if raised {
        return;
      }
      s := Then(s, Row);
      applied, raised := CountRule(Col, s, applied);
      if raised {
        return;
      }
      s := Then(s, Col);
      applied, raised := CountRule(Block, s, applied);
    }

    /** The hidden-single rule of the given kind run after step `s`, which
        left the cells as they are, adding one to `appliedBefore` when the
        rule reports a change. */
    method CountRule(kind: UnitKind, ghost s: Step, appliedBefore: int) returns (applied: int, raised: bool)
      requires Valid() && s.board == State() && s.status.Done?
      requires 0 <= appliedBefore && (appliedBefore > 0 <==> s.status.changed)
      modifies cells
      ensures Valid() && appliedBefore <= applied <= appliedBefore + 1
      ensures Step(State(), if raised then Raised else Done(applied > 0)) == Then(s, kind)
    {
      var status;
      match kind {
        case Row => status := SolverRowUniqueCandidate();
        case Col => status := SolverColUniqueCandidate();
        case Block => status := SolverBlockUniqueCandidate();
      }
      ThenOf(s, kind, Step(State(), status));
      raised := status.Raised?;
      applied := appliedBefore + if status == Done(true) then 1 else 0;
    }

    /** The solver loop: rounds until the grid is completed or a round
        changes nothing. Returns the cells; `raised` tells that a checked
        commit failed, where the source lets the error escape. */
    method Solver() returns (puzzle: seq<Cell>, raised: bool)
      requires Valid()
      modifies cells
      ensures Valid() && puzzle == cells
      ensures Solution(State(), raised) == Solve(old(State()))
    {
      ghost var b0 := State();
      while !IsCompleted()
        invariant Valid()
        invariant Solve(State()) == Solve(b0)
        decreases |FreeCells(State())|
      {
        ghost var b := State();
        SolveCases(b);
        PassProgress(b);
        var applied;
        applied, raised := SolverPass();
        if raised || applied == 0 {
          return cells, raised;
        }
        ProperSubsetSmaller(FreeCells(State()), FreeCells(b));
      }
      puzzle, raised := cells, false;
    }
  }
}
