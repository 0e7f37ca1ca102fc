/** The 9×9 grid as a value: cells addressed row-major (`row * 9 + col`),
    the three kinds of unit as index arithmetic, the legality test, the
    candidate list of a cell and the invariants of the whole board. */
module Grid {
  import opened Cells

  datatype Option<T> = None | Some(value: T)

  /** The 81 cell values, row-major. */
  type Board = seq<CellState>

  /** Every cell satisfies the cell invariant. */
  predicate WellFormed(b: Board) {
    |b| == 81 && forall i :: 0 <= i < 81 ==> Inv(b[i])
  }

  function Index(r: int, c: int): (i: int)
    requires 0 <= r < 9 && 0 <= c < 9
    ensures 0 <= i < 81 && i / 9 == r && i % 9 == c
  {
    r * 9 + c
  }

  /** Every cell index is the index of its own row and column. */
  lemma IndexOfCell(i: int)
    requires 0 <= i < 81
    ensures 0 <= i / 9 < 9 && Index(i / 9, i % 9) == i
  {
  }

  datatype UnitKind = Row | Col | Block

  /** The (row, column) of position `p` of unit `u`, computed as the
      rules compute it. Block `u` is block (u / 3, u % 3), and its
      positions are numbered row-major inside the block. */
  function Coords(kind: UnitKind, u: int, p: int): (rc: (int, int))
    requires 0 <= u < 9 && 0 <= p < 9
    ensures 0 <= rc.0 < 9 && 0 <= rc.1 < 9
  {
    match kind
    case Row => (u, p)
    case Col => (p, u)
    case Block => (p / 3 + (u / 3) * 3, p % 3 + (u % 3) * 3)
  }

  /** The block holding cell (r, c), numbered as the rules number blocks. */
  function BlockOf(r: int, c: int): (u: int)
    requires 0 <= r < 9 && 0 <= c < 9
    ensures 0 <= u < 9
  {
    (r / 3) * 3 + c / 3
  }

  /** The unit of the given kind holding cell `i`. */
  function UnitOf(kind: UnitKind, i: int): (u: int)
    requires 0 <= i < 81
    ensures 0 <= u < 9
  {
    match kind
    case Row => i / 9
    case Col => i % 9
    case Block => BlockOf(i / 9, i % 9)
  }

  /** The position of cell `i` inside its unit of the given kind. */
  function PosOf(kind: UnitKind, i: int): (p: int)
    requires 0 <= i < 81
    ensures 0 <= p < 9
  {
    match kind
    case Row => i % 9
    case Col => i / 9
    case Block => ((i / 9) % 3) * 3 + (i % 9) % 3
  }

  /** Position `p` of unit `u`. */
  function UnitCell(kind: UnitKind, u: int, p: int): (i: int)
    requires 0 <= u < 9 && 0 <= p < 9
    ensures 0 <= i < 81
  {
    var rc := Coords(kind, u, p);
    Index(rc.0, rc.1)
  }

  /** Position `p` of block (br, bc) is the cell at row br * 3 + p / 3 and
      column bc * 3 + p % 3. */
  lemma BlockCell(br: int, bc: int, p: int)
    requires 0 <= br < 3 && 0 <= bc < 3 && 0 <= p < 9
    ensures UnitCell(Block, br * 3 + bc, p) == (br * 3 + p / 3) * 9 + bc * 3 + p % 3
    ensures (br * 3 + p / 3) / 3 == br && (bc * 3 + p % 3) / 3 == bc
  {
    SplitBy3(br, bc);
    SplitBy3(br, p / 3);
    SplitBy3(bc, p % 3);
  }

  /** Position `p` of unit `u` lies in unit `u`, at position `p`. */
  lemma UnitCellRoundTrip(kind: UnitKind, u: int, p: int)
    requires 0 <= u < 9 && 0 <= p < 9
    ensures UnitOf(kind, UnitCell(kind, u, p)) == u && PosOf(kind, UnitCell(kind, u, p)) == p
  {
    if kind == Block {
      SplitBy3(u / 3, p / 3);
      SplitBy3(u % 3, p % 3);
      SplitBy9(p / 3 + (u / 3) * 3, p % 3 + (u % 3) * 3);
    }
  }

  /** Block `u` is block (u / 3, u % 3). */
  lemma BlockSplit(u: int)
    requires 0 <= u < 9
    ensures 0 <= u / 3 < 3 && 0 <= u % 3 < 3 && (u / 3) * 3 + u % 3 == u
  {
  }

  lemma SplitBy9(q: int, r: int)
    requires 0 <= r < 9
    ensures (q * 9 + r) / 9 == q && (q * 9 + r) % 9 == r
  {
  }

  lemma SplitBy3(q: int, r: int)
    requires 0 <= r < 3
    ensures (q * 3 + r) / 3 == q && (q * 3 + r) % 3 == r
  {
  }

  /** Every cell is some position of its unit. */
  lemma UnitCellOnto(kind: UnitKind, i: int)
    requires 0 <= i < 81
    ensures UnitCell(kind, UnitOf(kind, i), PosOf(kind, i)) == i
  {
    if kind == Block {
      var r, c := i / 9, i % 9;
      SplitBy3(r / 3, c / 3);
      SplitBy3(r % 3, c % 3);
      assert UnitOf(kind, i) / 3 == r / 3 && UnitOf(kind, i) % 3 == c / 3;
      assert PosOf(kind, i) / 3 == r % 3 && PosOf(kind, i) % 3 == c % 3;
    }
  }

  /** `b` and `b'` agree on every cell outside unit `u`. */
  predicate SameOutside(kind: UnitKind, u: int, b: Board, b': Board)
    requires |b| == 81 && |b'| == 81 && 0 <= u < 9
  {
    forall i :: 0 <= i < 81 && UnitOf(kind, i) != u ==> b[i] == b'[i]
  }

  /** Changing a cell of unit `u` changes nothing outside it. */
  lemma SameOutsideUpdate(kind: UnitKind, u: int, p: int, b: Board, c: CellState)
    requires |b| == 81 && 0 <= u < 9 && 0 <= p < 9
    ensures SameOutside(kind, u, b, b[UnitCell(kind, u, p) := c])
  {
    UnitCellRoundTrip(kind, u, p);
  }

  lemma SameOutsideTrans(kind: UnitKind, u: int, b1: Board, b2: Board, b3: Board)
    requires |b1| == 81 && |b2| == 81 && |b3| == 81 && 0 <= u < 9
    requires SameOutside(kind, u, b1, b2) && SameOutside(kind, u, b2, b3)
    ensures SameOutside(kind, u, b1, b3)
  {
  }

  /** Two cells share a row, a column or a block. */
  predicate SameUnit(i: int, j: int)
    requires 0 <= i < 81 && 0 <= j < 81
  {
    UnitOf(Row, i) == UnitOf(Row, j) || UnitOf(Col, i) == UnitOf(Col, j) || UnitOf(Block, i) == UnitOf(Block, j)
  }

  /** Some cell of the unit holds `n`. */
  predicate InUnit(b: Board, kind: UnitKind, u: int, n: int)
    requires |b| == 81 && 0 <= u < 9
  {
    exists p :: 0 <= p < 9 && b[UnitCell(kind, u, p)].number == n
  }

  /** The legality test: cell (r, c) is unoccupied and `n` is not the
      number of any cell in its row, its column or its block. */
  predicate Legal(b: Board, r: int, c: int, n: int)
    requires |b| == 81 && 0 <= r < 9 && 0 <= c < 9
  {
    && !b[Index(r, c)].occupied
    && !InUnit(b, Row, r, n)
    && !InUnit(b, Col, c, n)
    && !InUnit(b, Block, BlockOf(r, c), n)
  }

  /** Legality restated over peers: no cell sharing a unit with (r, c),
      the cell itself included, holds `n`. */
  lemma LegalIffNoPeerHolds(b: Board, r: int, c: int, n: int)
    requires |b| == 81 && 0 <= r < 9 && 0 <= c < 9
    ensures Legal(b, r, c, n) <==>
      !b[Index(r, c)].occupied &&
      forall j :: 0 <= j < 81 && SameUnit(Index(r, c), j) ==> b[j].number != n
  {
    var i := Index(r, c);
    assert UnitOf(Row, i) == r && UnitOf(Col, i) == c && UnitOf(Block, i) == BlockOf(r, c);
    forall j | 0 <= j < 81 && SameUnit(i, j) && b[j].number == n
      ensures InUnit(b, Row, r, n) || InUnit(b, Col, c, n) || InUnit(b, Block, BlockOf(r, c), n)
    {
      var kind := if UnitOf(Row, i) == UnitOf(Row, j) then Row
                  else if UnitOf(Col, i) == UnitOf(Col, j) then Col else Block;
      UnitCellOnto(kind, j);
      assert b[UnitCell(kind, UnitOf(kind, j), PosOf(kind, j))].number == n;
    }
    forall kind, u, p | 0 <= u < 9 && 0 <= p < 9 && u == UnitOf(kind, i)
      ensures SameUnit(i, UnitCell(kind, u, p))
    {
      UnitCellRoundTrip(kind, u, p);
    }
  }

  /** An unoccupied cell holds 0, so 0 is never legal anywhere: the
      legality test already rules out what committing a cell rejects. */
  lemma LegalIsNonzero(b: Board, r: int, c: int, n: int)
    requires WellFormed(b) && 0 <= r < 9 && 0 <= c < 9
    requires Legal(b, r, c, n)
    ensures n != 0
  {
    assert UnitCell(Row, r, c) == Index(r, c);
  }

  /** The checked commit: `n` at (r, c) when the legality test passes and the
      commit itself accepts it (n ≠ 0, cell unoccupied); None otherwise. */
  function Place(b: Board, r: int, c: int, n: int): (b': Option<Board>)
    requires |b| == 81 && 0 <= r < 9 && 0 <= c < 9
    ensures b'.Some? ==> !b[Index(r, c)].occupied && b'.value == b[Index(r, c) := Filled(n)]
    ensures WellFormed(b) && b'.Some? ==> WellFormed(b'.value)
  {
    if Legal(b, r, c, n) then
      if n != 0 && !b[Index(r, c)].occupied then Some(b[Index(r, c) := Filled(n)]) else None
    else None
  }

  /** On a well-formed board the commit succeeds exactly when the legality
      test passes: its own guard (n ≠ 0, cell unoccupied) never rejects
      what the legality test accepted. */
  lemma PlaceIffLegal(b: Board, r: int, c: int, n: int)
    requires WellFormed(b) && 0 <= r < 9 && 0 <= c < 9
    ensures Place(b, r, c, n).Some? <==> Legal(b, r, c, n)
  {
    if Legal(b, r, c, n) {
      LegalIsNonzero(b, r, c, n);
    }
  }

  /** Same numbers and occupancy: what legality depends on. */
  predicate SameFill(b: Board, b': Board) {
    |b| == |b'| && forall i :: 0 <= i < |b| ==> b[i].number == b'[i].number && b[i].occupied == b'[i].occupied
  }

  lemma LegalSameFill(b: Board, b': Board, r: int, c: int, n: int)
    requires |b| == 81 && SameFill(b, b') && 0 <= r < 9 && 0 <= c < 9
    ensures Legal(b, r, c, n) == Legal(b', r, c, n)
  {
    assert InUnit(b, Row, r, n) == InUnit(b', Row, r, n);
    assert InUnit(b, Col, c, n) == InUnit(b', Col, c, n);
    assert InUnit(b, Block, BlockOf(r, c), n) == InUnit(b', Block, BlockOf(r, c), n);
  }

  /** The legal digits below `k` at (r, c), ascending: the list the
      candidate loop has built after trying 1 .. k - 1. */
  function LegalBelow(b: Board, r: int, c: int, k: int): seq<int>
    requires |b| == 81 && 0 <= r < 9 && 0 <= c < 9 && 1 <= k <= 10
    decreases k
  {
    if k == 1 then []
    else
      LegalBelow(b, r, c, k - 1) + if Legal(b, r, c, k - 1) then [k - 1] else []
  }

  /** Trying digit `k` appends it when it is legal. */
  lemma LegalBelowNext(b: Board, r: int, c: int, k: int)
    requires |b| == 81 && 0 <= r < 9 && 0 <= c < 9 && 1 <= k <= 9
    ensures LegalBelow(b, r, c, k + 1) == LegalBelow(b, r, c, k) + if Legal(b, r, c, k) then [k] else []
  {
  }

  /** The list built after trying 1 .. k - 1 is ascending, below `k`. */
  lemma {:induction false} LegalBelowAscending(b: Board, r: int, c: int, k: int)
    requires |b| == 81 && 0 <= r < 9 && 0 <= c < 9 && 1 <= k <= 10
    ensures DigitList(LegalBelow(b, r, c, k))
    ensures forall i :: 0 <= i < |LegalBelow(b, r, c, k)| ==> LegalBelow(b, r, c, k)[i] < k
    decreases k
  {
    if k > 1 {
      LegalBelowAscending(b, r, c, k - 1);
      if Legal(b, r, c, k - 1) {
        AppendAscending(LegalBelow(b, r, c, k - 1), k - 1);
      }
    }
  }

  lemma AppendAscending(s: seq<int>, x: int)
    requires DigitList(s) && IsDigit(x) && forall i :: 0 <= i < |s| ==> s[i] < x
    ensures DigitList(s + [x])
  {
  }

  /** The list built after trying 1 .. k - 1 holds exactly the legal digits
      below `k`. */
  lemma {:induction false} LegalBelowMembers(b: Board, r: int, c: int, k: int, x: int)
    requires |b| == 81 && 0 <= r < 9 && 0 <= c < 9 && 1 <= k <= 10
    ensures x in LegalBelow(b, r, c, k) <==> 1 <= x < k && Legal(b, r, c, x)
    decreases k
  {
    if k > 1 {
      LegalBelowMembers(b, r, c, k - 1, x);
      var prev := LegalBelow(b, r, c, k - 1);
      var last := if Legal(b, r, c, k - 1) then [k - 1] else [];
      assert LegalBelow(b, r, c, k) == prev + last;
      assert x in prev + last <==> x in prev || x in last;
      assert x in last <==> x == k - 1 && Legal(b, r, c, k - 1);
    } else {
      assert LegalBelow(b, r, c, k) == [];
    }
  }

  /** The candidate list of cell (r, c). */
  function LegalDigits(b: Board, r: int, c: int): seq<int>
    requires |b| == 81 && 0 <= r < 9 && 0 <= c < 9
  {
    LegalBelow(b, r, c, 10)
  }

  lemma {:induction false} LegalBelowSameFill(b: Board, b': Board, r: int, c: int, k: int)
    requires |b| == 81 && SameFill(b, b') && 0 <= r < 9 && 0 <= c < 9 && 1 <= k <= 10
    ensures LegalBelow(b, r, c, k) == LegalBelow(b', r, c, k)
    decreases k
  {
    if k > 1 {
      LegalBelowSameFill(b, b', r, c, k - 1);
      LegalSameFill(b, b', r, c, k - 1);
    }
  }

  /** The cell value after its candidate list is recomputed. */
  function Recomputed(b: Board, i: int): (c: CellState)
    requires |b| == 81 && 0 <= i < 81
    ensures c.number == b[i].number && c.occupied == b[i].occupied && c.numCandidates == |c.candidates|
  {
    WithCandidates(b[i], LegalDigits(b, i / 9, i % 9))
  }

  /** The recomputed value of cell (r, c). */
  lemma RecomputedAt(b: Board, r: int, c: int)
    requires |b| == 81 && 0 <= r < 9 && 0 <= c < 9
    ensures Recomputed(b, Index(r, c)) == WithCandidates(b[Index(r, c)], LegalDigits(b, r, c))
  {
  }

  /** Cells 0 .. k - 1, in row-major order, each with its candidate list
      recomputed from the numbers of `b`. */
  function RecomputeBelow(b: Board, k: int): (r: Board)
    requires |b| == 81 && 0 <= k <= 81
    ensures |r| == k
    decreases k
  {
    if k == 0 then [] else RecomputeBelow(b, k - 1) + [Recomputed(b, k - 1)]
  }

  lemma {:induction false} RecomputeBelowAt(b: Board, k: int, i: int)
    requires |b| == 81 && 0 <= i < k <= 81
    ensures RecomputeBelow(b, k)[i] == Recomputed(b, i)
    decreases k
  {
    if i < k - 1 {
      RecomputeBelowAt(b, k - 1, i);
    }
  }

  /** Every cell's candidate list recomputed from the current numbers;
      numbers and occupancy are untouched. */
  function Recompute(b: Board): (b': Board)
    requires |b| == 81
    ensures |b'| == 81 && SameFill(b, b')
    ensures forall i :: 0 <= i < 81 ==> b'[i].numCandidates == |b'[i].candidates|
  {
    RecomputeBelowAll(b);
    RecomputeBelow(b, 81)
  }

  lemma RecomputeBelowAll(b: Board)
    requires |b| == 81
    ensures forall i :: 0 <= i < 81 ==> RecomputeBelow(b, 81)[i] == Recomputed(b, i)
  {
    forall i | 0 <= i < 81 ensures RecomputeBelow(b, 81)[i] == Recomputed(b, i) {
      RecomputeBelowAt(b, 81, i);
    }
  }

  /** Cell `i` of the recomputed board is cell `i` with its candidate list
      replaced by the digits legal there. */
  lemma RecomputeAt(b: Board, i: int)
    requires |b| == 81 && 0 <= i < 81
    ensures Recompute(b)[i] == Recomputed(b, i)
  {
    RecomputeBelowAt(b, 81, i);
  }

  /** After recomputation the candidates of a cell are exactly the digits
      legal there, ascending; an occupied cell has none. */
  lemma RecomputeCandidates(b: Board, i: int, x: int)
    requires |b| == 81 && 0 <= i < 81
    ensures x in Recompute(b)[i].candidates <==> IsDigit(x) && Legal(b, i / 9, i % 9, x)
    ensures b[i].occupied ==> Recompute(b)[i].candidates == []
    ensures DigitList(Recompute(b)[i].candidates)
  {
    IndexOfCell(i);
    RecomputeCandidatesAt(b, i / 9, i % 9, x);
  }

  /** `RecomputeCandidates` for the cell at row `r`, column `c`. */
  lemma RecomputeCandidatesAt(b: Board, r: int, c: int, x: int)
    requires |b| == 81 && 0 <= r < 9 && 0 <= c < 9
    ensures x in Recompute(b)[Index(r, c)].candidates <==> IsDigit(x) && Legal(b, r, c, x)
    ensures b[Index(r, c)].occupied ==> Recompute(b)[Index(r, c)].candidates == []
    ensures DigitList(Recompute(b)[Index(r, c)].candidates)
  {
    var s := LegalDigits(b, r, c);
    LegalBelowMembers(b, r, c, 10, x);
    LegalBelowAscending(b, r, c, 10);
    RecomputeAt(b, Index(r, c));
    RecomputedAt(b, r, c);
    assert Recompute(b)[Index(r, c)].candidates == s;
    if b[Index(r, c)].occupied {
      forall y | y in s ensures false {
        LegalBelowMembers(b, r, c, 10, y);
      }
    }
  }

  lemma RecomputeWellFormed(b: Board)
    requires |b| == 81 && forall i :: 0 <= i < 81 ==> (b[i].occupied <==> b[i].number != 0)
    ensures WellFormed(Recompute(b))
  {
    forall i | 0 <= i < 81 ensures Inv(Recompute(b)[i]) {
      RecomputeCandidates(b, i, 0);
    }
  }

  /** Recomputing one cell's candidates keeps the cell invariant. */
  lemma RecomputedInv(b: Board, i: int)
    requires |b| == 81 && 0 <= i < 81 && Inv(b[i])
    ensures Inv(Recomputed(b, i))
  {
    RecomputeAt(b, i);
    RecomputeCandidates(b, i, 0);
  }

  lemma RecomputedSameFill(b: Board, b': Board, i: int)
    requires |b| == 81 && SameFill(b, b') && 0 <= i < 81
    ensures Recomputed(b, i) == Recomputed(b', i)
  {
    LegalBelowSameFill(b, b', i / 9, i % 9, 10);
  }

  /** Recomputation reads only numbers and occupancy. */
  lemma RecomputeSameFill(b: Board, b': Board)
    requires |b| == 81 && SameFill(b, b')
    ensures Recompute(b) == Recompute(b')
  {
    var x, y := Recompute(b), Recompute(b');
    forall i | 0 <= i < 81 ensures x[i] == y[i] {
      RecomputedSameFill(b, b', i);
      RecomputeAt(b, i);
      RecomputeAt(b', i);
    }
  }

  /** No cell has number 0. */
  predicate Completed(b: Board) {
    forall i :: 0 <= i < |b| ==> b[i].number != 0
  }

  /** The unoccupied cells: the solver's termination measure. */
  function FreeCells(b: Board): (s: set<int>)
    ensures forall i :: i in s <==> 0 <= i < |b| && !b[i].occupied
  {
    set i | 0 <= i < |b| && !b[i].occupied
  }

  /** A proper subset is smaller. */
  lemma ProperSubsetSmaller(a: set<int>, b: set<int>)
    requires a < b
    ensures |a| < |b|
  {
    var d := b - a;
    assert b == a + d;
    assert a * d == {};
  }

  lemma SameFillFreeCells(b: Board, b': Board)
    requires SameFill(b, b')
    ensures FreeCells(b) == FreeCells(b')
  {
  }

  lemma CompletedIffNoFreeCell(b: Board)
    requires WellFormed(b)
    ensures Completed(b) <==> FreeCells(b) == {}
  {
    if !Completed(b) {
      var i :| 0 <= i < |b| && b[i].number == 0;
      assert i in FreeCells(b);
    }
  }

  /** Committed cells stay committed to the same number. */
  predicate Committed(b: Board, b': Board) {
    |b| == |b'| && forall i :: 0 <= i < |b| && b[i].occupied ==> b'[i].occupied && b'[i].number == b[i].number
  }

  lemma CommittedTrans(b1: Board, b2: Board, b3: Board)
    requires Committed(b1, b2) && Committed(b2, b3)
    ensures Committed(b1, b3)
  {
  }

  lemma SameFillTrans(b1: Board, b2: Board, b3: Board)
    requires SameFill(b1, b2) && SameFill(b2, b3)
    ensures SameFill(b1, b3)
  {
  }

  lemma SameFillCommitted(b: Board, b': Board)
    requires SameFill(b, b')
    ensures Committed(b, b')
  {
  }

  /** No two occupied cells of one unit hold the same number. */
  predicate Consistent(b: Board)
    requires |b| == 81
  {
    forall i, j :: 0 <= i < 81 && 0 <= j < 81 && i != j && SameUnit(i, j) && b[i].occupied && b[j].occupied
      ==> b[i].number != b[j].number
  }

  /** The checked commit keeps every unit free of duplicates. */
  lemma PlaceConsistent(b: Board, r: int, c: int, n: int)
    requires |b| == 81 && 0 <= r < 9 && 0 <= c < 9
    requires Consistent(b) && Place(b, r, c, n).Some?
    ensures Consistent(Place(b, r, c, n).value)
  {
    LegalIffNoPeerHolds(b, r, c, n);
    var b' := Place(b, r, c, n).value;
    var k := Index(r, c);
    forall i, j | 0 <= i < 81 && 0 <= j < 81 && i != j && SameUnit(i, j) && b'[i].occupied && b'[j].occupied
      ensures b'[i].number != b'[j].number
    {
      if i == k {
        assert SameUnit(k, j);
      } else if j == k {
        assert SameUnit(k, i);
      }
    }
  }
}
