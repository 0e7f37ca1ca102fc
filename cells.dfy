/** One square of the 9×9 puzzle: what it holds, and the three ways it is
    changed in place (committing a number, replacing its candidate list,
    committing its sole candidate). */
module Cells {

  /** A value a cell may be committed to or keep as a candidate. */
  predicate IsDigit(n: int) {
    1 <= n <= 9
  }

  /** A strictly ascending list of digits: the shape of every candidate list
      the solver builds. */
  predicate DigitList(s: seq<int>) {
    && (forall i :: 0 <= i < |s| ==> IsDigit(s[i]))
    && (forall i, j :: 0 <= i < j < |s| ==> s[i] < s[j])
  }

  /** The value of a cell's four mutable fields. */
  datatype CellState = CellState(number: int, candidates: seq<int>, numCandidates: int, occupied: bool)

  /** The cell invariant: a cell is occupied exactly when its number is not 0,
      the count field agrees with the list, an occupied cell has no
      candidates, and candidates are ascending digits. */
  predicate Inv(c: CellState) {
    && (c.occupied <==> c.number != 0)
    && c.numCandidates == |c.candidates|
    && (c.occupied ==> c.candidates == [])
    && DigitList(c.candidates)
  }

  /** A cell as the constructor leaves it: the given number, no candidates,
      occupied unless the number is 0. */
  function Initial(num: int): (c: CellState)
    ensures Inv(c) && c.number == num
    ensures c.candidates == [] && c.numCandidates == 0
  {
    CellState(num, [], 0, num != 0)
  }

  /** A cell committed to `num`. */
  function Filled(num: int): CellState {
    CellState(num, [], 0, true)
  }

  /** The candidate list replaced, the count field following its length. */
  function WithCandidates(c: CellState, numList: seq<int>): (c': CellState)
    ensures c'.number == c.number && c'.occupied == c.occupied
    ensures c'.candidates == numList && c'.numCandidates == |numList|
  {
    c.(candidates := numList, numCandidates := |numList|)
  }

  /** Committing the sole candidate: the new cell and whether it was committed. */
  function Confirm(c: CellState): (r: (CellState, bool))
    requires c.numCandidates == |c.candidates|
    ensures r.1 <==> !c.occupied && |c.candidates| == 1
    ensures c.occupied ==> r.0 == c
    ensures !r.1 ==> r.0 == c
    ensures r.1 ==> r.0.occupied && r.0.number == c.candidates[0] && r.0.candidates == []
    ensures Inv(c) ==> Inv(r.0)
  {
    if c.numCandidates == 1 && !c.occupied then (Filled(c.candidates[0]), true) else (c, false)
  }

  /** A cell of the grid. Its position and block are fixed at construction. */
  class Cell {
    const row: int
    const col: int
    const blockRow: int
    const blockCol: int
    var number: int
    var candidates: seq<int>
    var numCandidates: int
    var occupied: bool

    /** The current value of the mutable fields. */
    function State(): CellState
      reads this
    {
      CellState(number, candidates, numCandidates, occupied)
    }

    ghost predicate Valid()
      reads this
    {
      Inv(State())
    }

    constructor (irow: int, icol: int, num: int)
      ensures Valid()
      ensures row == irow && col == icol
      ensures blockRow == irow / 3 && blockCol == icol / 3
      ensures State() == Initial(num)
    {
      row, col := irow, icol;
      blockRow, blockCol := irow / 3, icol / 3;
      number := num;
      candidates := [];
      numCandidates := 0;
      occupied := num != 0;
    }

    /** Commits `num`; fails (the source raises) when `num` is 0 or the cell
        is already occupied, and then changes nothing. */
    method FillNumber(num: int) returns (filled: bool)
      requires Valid()
      modifies this
      ensures Valid()
      ensures filled <==> num != 0 && !old(occupied)
      ensures State() == if filled then Filled(num) else old(State())
    {
      if num != 0 && !occupied {
        number := num;
        candidates := [];
        numCandidates := 0;
        occupied := true;
        filled := true;
      } else {
        filled := false;
      }
    }

    /** Replaces the candidate list and its count, nothing else. */
    method SetCandidates(numList: seq<int>)
      modifies this
      ensures State() == WithCandidates(old(State()), numList)
    {
      candidates := numList;
      numCandidates := |candidates|;
    }

    /** Commits the sole candidate of an unoccupied cell; otherwise changes
        nothing and reports false. */
    method ConfirmCandidates() returns (confirmed: bool)
      requires Valid()
      modifies this
      ensures Valid()
      ensures (State(), confirmed) == Confirm(old(State()))
    {
      if numCandidates == 1 && !occupied {
        number := candidates[0];
        candidates := [];
        numCandidates := 0;
        occupied := true;
        confirmed := true;
      } else {
        confirmed := false;
      }
    }
  }
}
