/** The deduction rules and the driver loop as functions on board values:
    the forced-single sweep iterated to its fixed point, the hidden-single
    rule of each unit kind (a plan of commits computed from the candidate
    lists, then carried out one checked commit at a time), one solver pass
    and the loop of passes. The imperative solver is proved to compute
    exactly these. */
module Rules {
  import opened Cells
  import opened Grid

  /** How a rule ended: normally, saying whether it committed any cell, or by
      a failed checked commit (the source raises an error). */
  datatype Status = Done(changed: bool) | Raised

  /** The board a rule leaves behind and how it ended. */
  datatype Step = Step(board: Board, status: Status)

  predicate CountsAgree(b: Board) {
    |b| == 81 && forall i :: 0 <= i < 81 ==> b[i].numCandidates == |b[i].candidates|
  }

  // ------------------------------------------------------------------
  // Forced single

  /** One row-major sweep committing every sole candidate. Each commit
      reads only its own cell, so the sweep acts on every cell alone. */
  function Sweep(b: Board): (b': Board)
    requires CountsAgree(b)
    ensures |b'| == 81 && Committed(b, b')
    ensures forall i :: 0 <= i < 81 ==> b'[i] == Confirm(b[i]).0
  {
    seq(81, i requires 0 <= i < 81 => Confirm(b[i]).0)
  }

  /** Some cell is unoccupied with exactly one candidate. */
  predicate AnyForced(b: Board)
    requires CountsAgree(b)
  {
    exists i :: 0 <= i < 81 && Confirm(b[i]).1
  }

  /** A sweep never frees a cell; it commits at least one exactly when some
      cell is forced, and otherwise leaves the board as it was. */
  lemma SweepProgress(b: Board)
    requires CountsAgree(b)
    ensures FreeCells(Sweep(b)) <= FreeCells(b)
    ensures AnyForced(b) <==> FreeCells(Sweep(b)) < FreeCells(b)
    ensures !AnyForced(b) ==> Sweep(b) == b
  {
    var s := Sweep(b);
    if AnyForced(b) {
      var i :| 0 <= i < 81 && Confirm(b[i]).1;
      assert i in FreeCells(b) && i !in FreeCells(s);
    } else {
      assert forall i :: 0 <= i < 81 ==> s[i] == b[i];
    }
  }

  /** The forced-single rule: while the board is not completed, recompute
      every candidate list and sweep; stop after a sweep that commits
      nothing. `changed` reports whether any sweep committed a cell. */
  function Eliminate(b: Board): (s: Step)
    requires |b| == 81
    ensures s.status.Done? && |s.board| == 81
    ensures Completed(b) ==> s == Step(b, Done(false))
    decreases |FreeCells(b)|
  {
    if Completed(b) then Step(b, Done(false))
    else
      var r := Recompute(b);
      var swept := Sweep(r);
      if !AnyForced(r) then Step(swept, Done(false))
      else
        SweepProgress(r);
        SameFillFreeCells(b, r);
        ProperSubsetSmaller(FreeCells(swept), FreeCells(b));
        Step(Eliminate(swept).board, Done(true))
  }

  /** The forced-single rule never frees or renumbers a committed cell; it
      reports a change exactly when it committed some cell, and when it
      reports none the numbers are those it started from. */
  lemma {:induction false} EliminateProgress(b: Board)
    requires |b| == 81
    ensures Committed(b, Eliminate(b).board)
    ensures FreeCells(Eliminate(b).board) <= FreeCells(b)
    ensures Eliminate(b).status.changed <==> FreeCells(Eliminate(b).board) < FreeCells(b)
    ensures !Eliminate(b).status.changed ==> SameFill(b, Eliminate(b).board)
    decreases |FreeCells(b)|
  {
    if !Completed(b) {
      var r := Recompute(b);
      var swept := Sweep(r);
      SweepProgress(r);
      SameFillFreeCells(b, r);
      SameFillCommitted(b, r);
      if AnyForced(r) {
        var e := Eliminate(swept);
        assert Eliminate(b) == Step(e.board, Done(true));
        ProperSubsetSmaller(FreeCells(swept), FreeCells(b));
        EliminateProgress(swept);
        CommittedTrans(b, r, swept);
        CommittedTrans(b, swept, e.board);
      } else {
        assert Eliminate(b) == Step(r, Done(false));
      }
    }
  }

  /** One round of the forced-single rule on a board not yet completed:
      the sweep of the recomputed board ends the rule when it commits
      nothing, and otherwise the rule goes on from the swept board, which
      has fewer unoccupied cells. */
  lemma EliminateRound(b: Board)
    requires |b| == 81 && !Completed(b)
    ensures !AnyForced(Recompute(b)) ==> Eliminate(b) == Step(Sweep(Recompute(b)), Done(false))
    ensures AnyForced(Recompute(b)) ==>
      && Eliminate(b) == Step(Eliminate(Sweep(Recompute(b))).board, Done(true))
      && |FreeCells(Sweep(Recompute(b)))| < |FreeCells(b)|
  {
    var r := Recompute(b);
    SweepProgress(r);
    SameFillFreeCells(b, r);
    if AnyForced(r) {
      ProperSubsetSmaller(FreeCells(Sweep(r)), FreeCells(b));
    }
  }

  /** The forced-single rule keeps the cell invariant. */
  lemma {:induction false} EliminateWellFormed(b: Board)
    requires WellFormed(b)
    ensures WellFormed(Eliminate(b).board)
    decreases |FreeCells(b)|
  {
    if !Completed(b) {
      var r := Recompute(b);
      var swept := Sweep(r);
      RecomputeWellFormed(b);
      if AnyForced(r) {
        SweepProgress(r);
        SameFillFreeCells(b, r);
        ProperSubsetSmaller(FreeCells(swept), FreeCells(b));
        EliminateWellFormed(swept);
      }
    }
  }

  lemma RecomputeWellFormedIf(b: Board)
    requires |b| == 81
    ensures WellFormed(b) ==> WellFormed(Recompute(b))
  {
    if WellFormed(b) {
      RecomputeWellFormed(b);
    }
  }

  // ------------------------------------------------------------------
  // Hidden single

  /** A row or column number. */
  type Coord = x: int | 0 <= x < 9

  /** A checked commit of `digit` at (row, col). */
  datatype Assignment = Assignment(row: Coord, col: Coord, digit: int)

  /** The candidate lists of the nine positions of unit `u`, in position order. */
  function UnitCandidates(b: Board, kind: UnitKind, u: int): (cs: seq<seq<int>>)
    requires |b| == 81 && 0 <= u < 9
    ensures |cs| == 9
    ensures forall p :: 0 <= p < 9 ==> cs[p] == b[UnitCell(kind, u, p)].candidates
  {
    seq(9, p requires 0 <= p < 9 => b[UnitCell(kind, u, p)].candidates)
  }

  /** Digit `d` is in list `p` of `cs` and in no other. */
  predicate UniqueIn(cs: seq<seq<int>>, d: int, p: int)
    requires 0 <= p < |cs|
  {
    d in cs[p] && forall q :: 0 <= q < |cs| && d in cs[q] ==> q == p
  }

  /** Digit `d` is a candidate of position `p` of unit `u` and of no other
      position of that unit. */
  predicate UniqueHolder(b: Board, kind: UnitKind, u: int, d: int, p: int)
    requires |b| == 81 && 0 <= u < 9 && 0 <= p < 9
  {
    UniqueIn(UnitCandidates(b, kind, u), d, p)
  }

  /** The positions below `k` whose candidate list holds `d`, in ascending
      order: the per-digit table after scanning positions 0 .. k - 1. */
  function Positions(cs: seq<seq<int>>, d: int, k: int): (ps: seq<int>)
    requires 0 <= k <= |cs|
    ensures forall j :: 0 <= j < |ps| ==> 0 <= ps[j] < k
    decreases k
  {
    if k == 0 then []
    else Positions(cs, d, k - 1) + if d in cs[k - 1] then [k - 1] else []
  }

  /** The positions listed are exactly those below `k` whose list holds `d`,
      in ascending order. */
  lemma {:induction false} PositionsExactly(cs: seq<seq<int>>, d: int, k: int)
    requires 0 <= k <= |cs|
    ensures forall j :: 0 <= j < |Positions(cs, d, k)| ==> d in cs[Positions(cs, d, k)[j]]
    ensures forall p :: 0 <= p < k && d in cs[p] ==> p in Positions(cs, d, k)
    ensures forall i, j :: 0 <= i < j < |Positions(cs, d, k)| ==> Positions(cs, d, k)[i] < Positions(cs, d, k)[j]
    decreases k
  {
    if k > 0 {
      PositionsExactly(cs, d, k - 1);
    }
  }

  /** A strictly ascending list of integers spans at least its length. */
  lemma {:induction false} SortedSpread(ps: seq<int>)
    requires |ps| >= 1 && forall i, j :: 0 <= i < j < |ps| ==> ps[i] < ps[j]
    ensures ps[|ps| - 1] - ps[0] >= |ps| - 1
  {
    if |ps| > 1 {
      SortedSpread(ps[..|ps| - 1]);
      assert ps[|ps| - 2] < ps[|ps| - 1];
    }
  }

  /** The table entry for `d` has length one exactly when one position holds
      `d`, and that entry is the position. */
  lemma SinglePosition(cs: seq<seq<int>>, d: int, p: int)
    requires 0 <= p < |cs|
    ensures Positions(cs, d, |cs|) == [p] <==> UniqueIn(cs, d, p)
  {
    var ps := Positions(cs, d, |cs|);
    PositionsExactly(cs, d, |cs|);
    if ps == [p] {
      assert ps[0] == p;
      forall q | 0 <= q < |cs| && d in cs[q] ensures q == p {
        assert q in ps;
      }
    }
    if UniqueIn(cs, d, p) {
      assert p in ps;
      forall j | 0 <= j < |ps| ensures ps[j] == p {
        assert d in cs[ps[j]];
      }
      SortedSpread(ps);
      assert ps == [ps[0]];
    }
  }

  /** The positions of unit `u` whose candidate list holds `d`: the entry
      for `d` of the table the rule builds. */
  function UnitPositions(b: Board, kind: UnitKind, u: int, d: int): (ps: seq<int>)
    requires |b| == 81 && 0 <= u < 9
    ensures PositionList(ps)
  {
    var cs := UnitCandidates(b, kind, u);
    Positions(cs, d, |cs|)
  }

  /** A table entry: positions inside a unit. */
  predicate PositionList(ps: seq<int>) {
    forall j :: 0 <= j < |ps| ==> 0 <= ps[j] < 9
  }

  /** A per-digit table of positions, as the rule builds for one unit. */
  predicate Table(t: map<int, seq<int>>) {
    forall d :: 1 <= d <= 9 ==> d in t && PositionList(t[d])
  }

  /** The commit of digit `d` in unit `u` given its table entry `ps`: one
      commit when `ps` holds exactly one position, none otherwise. */
  function SingleAt(kind: UnitKind, u: int, d: int, ps: seq<int>): (plan: seq<Assignment>)
    requires 0 <= u < 9 && PositionList(ps)
    ensures |plan| <= 1
    ensures forall k :: 0 <= k < |plan| ==> plan[k].digit == d
    ensures |plan| == 1 <==> |ps| == 1
  {
    if |ps| == 1 then
      var rc := Coords(kind, u, ps[0]);
      [Assignment(rc.0, rc.1, d)]
    else []
  }

  /** The commit for digit `d` in unit `u`, if `d` has exactly one position. */
  function SingleFor(b: Board, kind: UnitKind, u: int, d: int): (plan: seq<Assignment>)
    requires |b| == 81 && 0 <= u < 9
    ensures |plan| <= 1
    ensures forall k :: 0 <= k < |plan| ==> plan[k].digit == d
  {
    SingleAt(kind, u, d, UnitPositions(b, kind, u, d))
  }

  /** The commits of unit `u` for digits d .. 9, in digit order. */
  function UnitPlanFrom(b: Board, kind: UnitKind, u: int, d: int): (plan: seq<Assignment>)
    requires |b| == 81 && 0 <= u < 9 && 1 <= d <= 10
    ensures forall k :: 0 <= k < |plan| ==> d <= plan[k].digit <= 9
    decreases 10 - d
  {
    if d == 10 then []
    else
      var single, rest := SingleFor(b, kind, u, d), UnitPlanFrom(b, kind, u, d + 1);
      single + rest
  }

  function UnitPlan(b: Board, kind: UnitKind, u: int): seq<Assignment>
    requires |b| == 81 && 0 <= u < 9
  {
    UnitPlanFrom(b, kind, u, 1)
  }

  /** The commits of units u .. 8, in unit order. */
  function PlanFrom(b: Board, kind: UnitKind, u: int): (plan: seq<Assignment>)
    requires |b| == 81 && 0 <= u <= 9
    ensures forall k :: 0 <= k < |plan| ==> IsDigit(plan[k].digit)
    decreases 9 - u
  {
    if u == 9 then []
    else
      var here, rest := UnitPlan(b, kind, u), PlanFrom(b, kind, u + 1);
      here + rest
  }

  /** All commits one hidden-single rule plans from the given candidate lists. */
  function Plan(b: Board, kind: UnitKind): (plan: seq<Assignment>)
    requires |b| == 81
    ensures forall k :: 0 <= k < |plan| ==> IsDigit(plan[k].digit)
  {
    PlanFrom(b, kind, 0)
  }

  /** Assignment `a` commits, at its position in unit `u`, a digit that
      position alone holds there. */
  predicate HiddenSingleAt(b: Board, kind: UnitKind, u: int, a: Assignment)
    requires |b| == 81 && 0 <= u < 9
  {
    exists p :: 0 <= p < 9 && Coords(kind, u, p) == (a.row, a.col) && UniqueHolder(b, kind, u, a.digit, p)
  }

  /** The commit planned for digit `d` in unit `u` is the hidden single of
      `d` there, if any. */
  lemma SingleForExactly(b: Board, kind: UnitKind, u: int, d: int, a: Assignment)
    requires |b| == 81 && 0 <= u < 9
    ensures a in SingleFor(b, kind, u, d) <==> a.digit == d && HiddenSingleAt(b, kind, u, a)
  {
    if a in SingleFor(b, kind, u, d) {
      var ps := UnitPositions(b, kind, u, d);
      PlannedIsUnique(b, kind, u, d);
      assert Coords(kind, u, ps[0]) == (a.row, a.col);
    }
    if a.digit == d && HiddenSingleAt(b, kind, u, a) {
      HiddenIsSingleFor(b, kind, u, a);
    }
  }

  /** A digit with exactly one position in the unit's table is held by
      that position alone. */
  lemma PlannedIsUnique(b: Board, kind: UnitKind, u: int, d: int)
    requires |b| == 81 && 0 <= u < 9 && |UnitPositions(b, kind, u, d)| == 1
    ensures UniqueHolder(b, kind, u, d, UnitPositions(b, kind, u, d)[0])
  {
    var cs := UnitCandidates(b, kind, u);
    var ps := Positions(cs, d, |cs|);
    assert ps == [ps[0]];
    SinglePosition(cs, d, ps[0]);
  }

  /** A hidden single is the commit planned for its digit. */
  lemma HiddenIsSingleFor(b: Board, kind: UnitKind, u: int, a: Assignment)
    requires |b| == 81 && 0 <= u < 9 && HiddenSingleAt(b, kind, u, a)
    ensures SingleFor(b, kind, u, a.digit) == [a]
  {
    var cs := UnitCandidates(b, kind, u);
    var p :| 0 <= p < 9 && Coords(kind, u, p) == (a.row, a.col) && UniqueHolder(b, kind, u, a.digit, p);
    SinglePosition(cs, a.digit, p);
    assert UnitPositions(b, kind, u, a.digit) == [p];
  }

  /** The commits planned for unit `u`, digits from `d` on, are exactly the
      hidden singles of the digits d .. 9 in that unit. */
  lemma {:induction false} UnitPlanFromExactly(b: Board, kind: UnitKind, u: int, d: int, a: Assignment)
    requires |b| == 81 && 0 <= u < 9 && 1 <= d <= 10
    ensures a in UnitPlanFrom(b, kind, u, d) <==> d <= a.digit <= 9 && HiddenSingleAt(b, kind, u, a)
    decreases 10 - d
  {
    if d < 10 {
      UnitPlanFromExactly(b, kind, u, d + 1, a);
      SingleForExactly(b, kind, u, d, a);
    }
  }

  /** The hidden-single plan of a unit kind holds a commit of digit d at
      cell (r, c) exactly when d is a candidate of (r, c) and of no other
      cell of the unit of that kind through (r, c). */
  lemma PlanExactly(b: Board, kind: UnitKind, a: Assignment)
    requires |b| == 81
    ensures a in Plan(b, kind) <==>
      && 0 <= a.row < 9 && 0 <= a.col < 9 && IsDigit(a.digit)
      && UniqueHolder(b, kind, UnitOf(kind, Index(a.row, a.col)), a.digit, PosOf(kind, Index(a.row, a.col)))
  {
    PlanFromExactly(b, kind, 0, a);
  }

  /** The hidden single of unit `u` named by `a` is the one in the unit
      through `a`'s cell, at that cell's position. */
  lemma HiddenSingleAtCell(b: Board, kind: UnitKind, u: int, a: Assignment)
    requires |b| == 81 && 0 <= u < 9
    ensures HiddenSingleAt(b, kind, u, a) <==>
      && 0 <= a.row < 9 && 0 <= a.col < 9
      && UnitOf(kind, Index(a.row, a.col)) == u
      && UniqueHolder(b, kind, u, a.digit, PosOf(kind, Index(a.row, a.col)))
  {
    if HiddenSingleAt(b, kind, u, a) {
      var p :| 0 <= p < 9 && Coords(kind, u, p) == (a.row, a.col) && UniqueHolder(b, kind, u, a.digit, p);
      assert UnitCell(kind, u, p) == Index(a.row, a.col);
      UnitCellRoundTrip(kind, u, p);
    }
    if 0 <= a.row < 9 && 0 <= a.col < 9 && UnitOf(kind, Index(a.row, a.col)) == u {
      var i := Index(a.row, a.col);
      var p := PosOf(kind, i);
      UnitCellOnto(kind, i);
      assert Index(Coords(kind, u, p).0, Coords(kind, u, p).1) == i;
      assert Coords(kind, u, p) == (a.row, a.col);
    }
  }

  lemma {:induction false} PlanFromExactly(b: Board, kind: UnitKind, u: int, a: Assignment)
    requires |b| == 81 && 0 <= u <= 9
    ensures a in PlanFrom(b, kind, u) <==>
      && 0 <= a.row < 9 && 0 <= a.col < 9 && IsDigit(a.digit)
      && u <= UnitOf(kind, Index(a.row, a.col))
      && UniqueHolder(b, kind, UnitOf(kind, Index(a.row, a.col)), a.digit, PosOf(kind, Index(a.row, a.col)))
    decreases 9 - u
  {
    if u < 9 {
      PlanFromExactly(b, kind, u + 1, a);
      UnitPlanFromExactly(b, kind, u, 1, a);
      HiddenSingleAtCell(b, kind, u, a);
    }
  }

  // ------------------------------------------------------------------
  // Carrying out a plan

  /** The cell an assignment targets. */
  function Target(a: Assignment): (i: int)
    ensures 0 <= i < 81
  {
    Index(a.row, a.col)
  }

  /** The commit of `d` to cell `i`. */
  function CommitAt(i: int, d: int): (a: Assignment)
    requires 0 <= i < 81
    ensures Target(a) == i && a.digit == d
  {
    IndexOfCell(i);
    Assignment(i / 9, i % 9, d)
  }

  /** The commits of `plan` carried out in order, each through the checked
      commit; the first that fails ends the rule with its board as it was then. */
  function Apply(b: Board, plan: seq<Assignment>): (s: Step)
    requires |b| == 81
    ensures |s.board| == 81
    ensures s.status.Done? ==> (s.status.changed <==> plan != [])
    ensures plan == [] ==> s == Step(b, Done(false))
    decreases |plan|
  {
    if plan == [] then Step(b, Done(false))
    else
      match Place(b, plan[0].row, plan[0].col, plan[0].digit)
      case None => Step(b, Raised)
      case Some(b') =>
        var rest := Apply(b', plan[1..]);
        if rest.status.Raised? then rest else Step(rest.board, Done(true))
  }

  /** Carrying out a plan never frees or renumbers a committed cell, and a
      plan carried out to its end with at least one commit leaves fewer
      unoccupied cells. */
  lemma {:induction false} ApplyProgress(b: Board, plan: seq<Assignment>)
    requires |b| == 81
    ensures Committed(b, Apply(b, plan).board)
    ensures FreeCells(Apply(b, plan).board) <= FreeCells(b)
    ensures Apply(b, plan).status == Done(true) ==> FreeCells(Apply(b, plan).board) < FreeCells(b)
    decreases |plan|
  {
    if plan != [] {
      match Place(b, plan[0].row, plan[0].col, plan[0].digit)
      case None =>
      case Some(b') =>
        assert Target(plan[0]) in FreeCells(b) && Target(plan[0]) !in FreeCells(b');
        ApplyProgress(b', plan[1..]);
    }
  }

  /** When no commit fails, every planned cell ends up committed to its digit. */
  lemma {:induction false} ApplyCommitsAll(b: Board, plan: seq<Assignment>, k: int)
    requires |b| == 81 && 0 <= k < |plan|
    requires Apply(b, plan).status.Done?
    ensures Apply(b, plan).board[Target(plan[k])].occupied
    ensures Apply(b, plan).board[Target(plan[k])].number == plan[k].digit
    decreases |plan|
  {
    var b' := Place(b, plan[0].row, plan[0].col, plan[0].digit).value;
    if k == 0 {
      ApplyProgress(b', plan[1..]);
    } else {
      assert plan[k] == plan[1..][k - 1];
      ApplyCommitsAll(b', plan[1..], k - 1);
    }
  }

  /** A cell that carrying out a plan changes was unoccupied and is now
      committed to the digit of a commit that targets it. */
  lemma {:induction false} ApplyChangesOnlyTargets(b: Board, plan: seq<Assignment>, i: int)
    requires |b| == 81 && 0 <= i < 81
    requires Apply(b, plan).board[i] != b[i]
    ensures !b[i].occupied
    ensures exists k :: 0 <= k < |plan| && Target(plan[k]) == i && Apply(b, plan).board[i] == Filled(plan[k].digit)
    decreases |plan|
  {
    var b' := Place(b, plan[0].row, plan[0].col, plan[0].digit).value;
    var s := Apply(b', plan[1..]);
    assert Apply(b, plan).board == s.board;
    if s.board[i] != b'[i] {
      ApplyChangesOnlyTargets(b', plan[1..], i);
      var k :| 0 <= k < |plan[1..]| && Target(plan[1..][k]) == i && s.board[i] == Filled(plan[1..][k].digit);
      assert plan[k + 1] == plan[1..][k];
    } else {
      assert Target(plan[0]) == i;
    }
  }

  /** Carrying out a plan keeps the cell invariant. */
  lemma {:induction false} ApplyWellFormed(b: Board, plan: seq<Assignment>)
    requires WellFormed(b)
    ensures WellFormed(Apply(b, plan).board)
    decreases |plan|
  {
    if plan != [] {
      match Place(b, plan[0].row, plan[0].col, plan[0].digit)
      case None =>
      case Some(b') =>
        ApplyWellFormed(b', plan[1..]);
    }
  }

  /** Carrying out a plan keeps every unit free of duplicates. */
  lemma {:induction false} ApplyConsistent(b: Board, plan: seq<Assignment>)
    requires |b| == 81 && Consistent(b)
    ensures Consistent(Apply(b, plan).board)
    decreases |plan|
  {
    if plan != [] {
      match Place(b, plan[0].row, plan[0].col, plan[0].digit)
      case None =>
      case Some(b') =>
        PlaceConsistent(b, plan[0].row, plan[0].col, plan[0].digit);
        ApplyConsistent(b', plan[1..]);
    }
  }

  /** Carrying out `plan` after step `s`, unless `s` raised; the change
      flags accumulate. */
  function Continue(s: Step, plan: seq<Assignment>): (t: Step)
    requires |s.board| == 81
    ensures |t.board| == 81
    ensures s.status.Raised? || plan == [] ==> t == s
    decreases |plan|
  {
    if s.status.Raised? || plan == [] then s
    else
      match Place(s.board, plan[0].row, plan[0].col, plan[0].digit)
      case None => Step(s.board, Raised)
      case Some(b') => Continue(Step(b', Done(true)), plan[1..])
  }

  /** Continuing a step that has not raised is carrying out the plan on its
      board, the change flags or-ed together. */
  lemma {:induction false} ContinueApply(b: Board, changed: bool, plan: seq<Assignment>)
    requires |b| == 81
    ensures Continue(Step(b, Done(changed)), plan) ==
      var t := Apply(b, plan);
      if t.status.Raised? then t else Step(t.board, Done(changed || t.status.changed))
    decreases |plan|
  {
    if plan != [] {
      match Place(b, plan[0].row, plan[0].col, plan[0].digit)
      case None =>
      case Some(b') =>
        ContinueApply(b', true, plan[1..]);
    }
  }

  /** Continuing a fresh step is carrying out the plan. */
  lemma ContinueFresh(b: Board, plan: seq<Assignment>)
    requires |b| == 81
    ensures Continue(Step(b, Done(false)), plan) == Apply(b, plan)
  {
    ContinueApply(b, false, plan);
  }

  /** Carrying out two plans one after the other is carrying out their
      concatenation. */
  lemma {:induction false} ContinueConcat(s: Step, p1: seq<Assignment>, p2: seq<Assignment>)
    requires |s.board| == 81
    ensures Continue(s, p1 + p2) == Continue(Continue(s, p1), p2)
    decreases |p1|
  {
    if p1 == [] {
      assert p1 + p2 == p2;
    } else if !s.status.Raised? {
      assert (p1 + p2)[0] == p1[0];
      assert (p1 + p2)[1..] == p1[1..] + p2;
      match Place(s.board, p1[0].row, p1[0].col, p1[0].digit)
      case None =>
      case Some(b') =>
        ContinueConcat(Step(b', Done(true)), p1[1..], p2);
    }
  }

  /** Continuing with a plan that starts with commit `a`: it raises when
      the checked commit of `a` fails, and otherwise goes on from the
      committed board, reporting a change. */
  lemma ContinueFirst(s: Step, a: Assignment, rest: seq<Assignment>)
    requires |s.board| == 81 && s.status.Done?
    ensures Continue(s, [a] + rest) ==
      match Place(s.board, a.row, a.col, a.digit)
      case None => Step(s.board, Raised)
      case Some(b') => Continue(Step(b', Done(true)), rest)
  {
    assert ([a] + rest)[0] == a;
    assert ([a] + rest)[1..] == rest;
  }

  /** A list of plans carried out one plan at a time after step `s`,
      stopping at the first failed commit. */
  function RunEach(plans: seq<seq<Assignment>>, s: Step): (r: Step)
    requires |s.board| == 81
    ensures |r.board| == 81
    ensures s.status.Raised? || plans == [] ==> r == s
    decreases |plans|
  {
    if s.status.Raised? || plans == [] then s
    else RunEach(plans[1..], Continue(s, plans[0]))
  }

  /** The plans of a list, concatenated in order. */
  function Flatten(plans: seq<seq<Assignment>>): seq<Assignment>
    decreases |plans|
  {
    if plans == [] then [] else plans[0] + Flatten(plans[1..])
  }

  lemma {:induction false} FlattenConcat(p1: seq<seq<Assignment>>, p2: seq<seq<Assignment>>)
    ensures Flatten(p1 + p2) == Flatten(p1) + Flatten(p2)
    decreases |p1|
  {
    if p1 == [] {
      assert p1 + p2 == p2;
    } else {
      assert (p1 + p2)[0] == p1[0];
      assert (p1 + p2)[1..] == p1[1..] + p2;
      FlattenConcat(p1[1..], p2);
    }
  }

  /** Carrying out the plans one by one is carrying out their concatenation. */
  lemma {:induction false} RunEachFlatten(plans: seq<seq<Assignment>>, s: Step)
    requires |s.board| == 81
    ensures RunEach(plans, s) == Continue(s, Flatten(plans))
    decreases |plans|
  {
    if plans == [] {
      assert Flatten(plans) == [];
    } else if !s.status.Raised? {
      ContinueConcat(s, plans[0], Flatten(plans[1..]));
      RunEachFlatten(plans[1..], Continue(s, plans[0]));
    }
  }

  /** Going through two lists of plans one after the other is going
      through their concatenation. */
  lemma {:induction false} RunEachConcat(p1: seq<seq<Assignment>>, p2: seq<seq<Assignment>>, s: Step)
    requires |s.board| == 81
    ensures RunEach(p1 + p2, s) == RunEach(p2, RunEach(p1, s))
    decreases |p1|
  {
    if p1 == [] {
      assert p1 + p2 == p2;
    } else if !s.status.Raised? {
      assert (p1 + p2)[0] == p1[0];
      assert (p1 + p2)[1..] == p1[1..] + p2;
      RunEachConcat(p1[1..], p2, Continue(s, p1[0]));
    }
  }

  /** The single-commit plans of unit `u` for digits d .. 9, one per digit,
      planned from the candidate lists of `b`. */
  function SinglesFrom(b: Board, kind: UnitKind, u: int, d: int): (plans: seq<seq<Assignment>>)
    requires |b| == 81 && 0 <= u < 9 && 1 <= d <= 10
    ensures |plans| == 10 - d
    decreases 10 - d
  {
    if d == 10 then [] else [SingleFor(b, kind, u, d)] + SinglesFrom(b, kind, u, d + 1)
  }

  /** The single-commit plans of units u .. 8, unit by unit and digit by
      digit. */
  function AllSinglesFrom(b: Board, kind: UnitKind, u: int): (plans: seq<seq<Assignment>>)
    requires |b| == 81 && 0 <= u <= 9
    decreases 9 - u
  {
    if u == 9 then [] else SinglesFrom(b, kind, u, 1) + AllSinglesFrom(b, kind, u + 1)
  }

  /** The single-commit plans read from table `t` of unit `u` for digits
      d .. 9, one per digit. */
  function TableSinglesFrom(kind: UnitKind, u: int, t: map<int, seq<int>>, d: int): (plans: seq<seq<Assignment>>)
    requires Table(t) && 0 <= u < 9 && 1 <= d <= 10
    ensures |plans| == 10 - d
    decreases 10 - d
  {
    if d == 10 then [] else [SingleAt(kind, u, d, t[d])] + TableSinglesFrom(kind, u, t, d + 1)
  }

  /** A table holding the positions of every digit in unit `u` of `b`
      yields the plans the rule makes from `b`. */
  lemma {:induction false} TableSinglesAreSingles(b: Board, kind: UnitKind, u: int, t: map<int, seq<int>>, d: int)
    requires |b| == 81 && Table(t) && 0 <= u < 9 && 1 <= d <= 10
    requires forall e :: 1 <= e <= 9 ==> t[e] == UnitPositions(b, kind, u, e)
    ensures TableSinglesFrom(kind, u, t, d) == SinglesFrom(b, kind, u, d)
    decreases 10 - d
  {
    if d < 10 {
      TableSinglesAreSingles(b, kind, u, t, d + 1);
      var single := SingleAt(kind, u, d, t[d]);
      assert single == SingleFor(b, kind, u, d);
      assert TableSinglesFrom(kind, u, t, d) == [single] + TableSinglesFrom(kind, u, t, d + 1);
      assert SinglesFrom(b, kind, u, d) == [single] + SinglesFrom(b, kind, u, d + 1);
    } else {
      assert TableSinglesFrom(kind, u, t, d) == [] == SinglesFrom(b, kind, u, d);
    }
  }

  /** Going through the table from digit `d` is trying digit `d`'s plan and
      going on from digit d + 1. */
  lemma TableSinglesStep(kind: UnitKind, u: int, t: map<int, seq<int>>, d: int, s: Step)
    requires Table(t) && 0 <= u < 9 && 1 <= d < 10 && |s.board| == 81
    ensures RunEach(TableSinglesFrom(kind, u, t, d), s)
      == RunEach(TableSinglesFrom(kind, u, t, d + 1), Continue(s, SingleAt(kind, u, d, t[d])))
  {
    var rest := TableSinglesFrom(kind, u, t, d + 1);
    assert TableSinglesFrom(kind, u, t, d) == [SingleAt(kind, u, d, t[d])] + rest;
    assert ([SingleAt(kind, u, d, t[d])] + rest)[1..] == rest;
  }

  /** Going through units u .. 8 is going through unit `u`'s digits and
      then the units after it. */
  lemma AllSinglesStep(b: Board, kind: UnitKind, u: int, s: Step)
    requires |b| == 81 && 0 <= u < 9 && |s.board| == 81
    ensures RunEach(AllSinglesFrom(b, kind, u), s)
      == RunEach(AllSinglesFrom(b, kind, u + 1), RunEach(SinglesFrom(b, kind, u, 1), s))
  {
    AllSinglesSplit(b, kind, u);
    RunEachConcat(SinglesFrom(b, kind, u, 1), AllSinglesFrom(b, kind, u + 1), s);
  }

  lemma AllSinglesSplit(b: Board, kind: UnitKind, u: int)
    requires |b| == 81 && 0 <= u < 9
    ensures AllSinglesFrom(b, kind, u) == SinglesFrom(b, kind, u, 1) + AllSinglesFrom(b, kind, u + 1)
  {
  }

  /** The plans of unit `u` from digit `d` on make up its plan. */
  lemma {:induction false} SinglesFlatten(b: Board, kind: UnitKind, u: int, d: int)
    requires |b| == 81 && 0 <= u < 9 && 1 <= d <= 10
    ensures Flatten(SinglesFrom(b, kind, u, d)) == UnitPlanFrom(b, kind, u, d)
    decreases 10 - d
  {
    if d < 10 {
      SinglesFlatten(b, kind, u, d + 1);
      var single, rest := SingleFor(b, kind, u, d), SinglesFrom(b, kind, u, d + 1);
      assert SinglesFrom(b, kind, u, d) == [single] + rest;
      assert ([single] + rest)[0] == single;
      assert ([single] + rest)[1..] == rest;
      assert Flatten([single] + rest) == single + Flatten(rest);
      assert UnitPlanFrom(b, kind, u, d) == single + UnitPlanFrom(b, kind, u, d + 1);
    } else {
      assert Flatten(SinglesFrom(b, kind, u, d)) == [] == UnitPlanFrom(b, kind, u, d);
    }
  }

  /** The plans of units u .. 8 make up their plan. */
  lemma {:induction false} AllSinglesFlatten(b: Board, kind: UnitKind, u: int)
    requires |b| == 81 && 0 <= u <= 9
    ensures Flatten(AllSinglesFrom(b, kind, u)) == PlanFrom(b, kind, u)
    decreases 9 - u
  {
    if u < 9 {
      AllSinglesFlatten(b, kind, u + 1);
      SinglesFlatten(b, kind, u, 1);
      AllSinglesSplit(b, kind, u);
      FlattenConcat(SinglesFrom(b, kind, u, 1), AllSinglesFrom(b, kind, u + 1));
      PlanFromSplit(b, kind, u);
    } else {
      assert Flatten(AllSinglesFrom(b, kind, u)) == [] == PlanFrom(b, kind, u);
    }
  }

  lemma PlanFromSplit(b: Board, kind: UnitKind, u: int)
    requires |b| == 81 && 0 <= u < 9
    ensures PlanFrom(b, kind, u) == UnitPlanFrom(b, kind, u, 1) + PlanFrom(b, kind, u + 1)
  {
  }

  /** Going through every unit's plans, one digit at a time, from a fresh
      step is carrying out the whole plan of the rule. */
  lemma AllSinglesRun(b: Board, kind: UnitKind)
    requires |b| == 81
    ensures RunEach(AllSinglesFrom(b, kind, 0), Step(b, Done(false))) == Apply(b, Plan(b, kind))
  {
    RunEachFlatten(AllSinglesFrom(b, kind, 0), Step(b, Done(false)));
    AllSinglesFlatten(b, kind, 0);
    ContinueFresh(b, Plan(b, kind));
  }

  /** One digit of the table of unit `u`: its entry `ps` holds one
      position, and the checked commit of `d` there turned board `S` into
      `S'`, or failed. */
  lemma CommitStep(kind: UnitKind, u: int, d: int, ps: seq<int>, S: Board, changed: bool, ok: bool, S': Board)
    requires |S| == 81 && 0 <= u < 9 && PositionList(ps) && |ps| == 1
    requires ok <==> Place(S, Coords(kind, u, ps[0]).0, Coords(kind, u, ps[0]).1, d).Some?
    requires S' == if ok then Place(S, Coords(kind, u, ps[0]).0, Coords(kind, u, ps[0]).1, d).value else S
    ensures |S'| == 81 && SameOutside(kind, u, S, S')
    ensures Continue(Step(S, Done(changed)), SingleAt(kind, u, d, ps)) ==
      if ok then Step(S', Done(true)) else Step(S, Raised)
  {
    var rc := Coords(kind, u, ps[0]);
    ContinueFirst(Step(S, Done(changed)), Assignment(rc.0, rc.1, d), []);
    assert [Assignment(rc.0, rc.1, d)] + [] == SingleAt(kind, u, d, ps);
    SameOutsideUpdate(kind, u, ps[0], S, Filled(d));
  }

  /** One hidden-single rule: recompute every candidate list, plan from those
      lists, and carry the plan out. */
  function Rule(b: Board, kind: UnitKind): (s: Step)
    requires |b| == 81
    ensures |s.board| == 81
  {
    var r := Recompute(b);
    Apply(r, Plan(r, kind))
  }

  lemma RuleIsApply(b: Board, kind: UnitKind)
    requires |b| == 81
    ensures Rule(b, kind) == Apply(Recompute(b), Plan(Recompute(b), kind))
  {
  }

  /** A hidden-single rule never frees or renumbers a committed cell, leaves
      fewer unoccupied cells when it reports a change and the numbers as they
      were when it reports none, and keeps the cell invariant. */
  lemma RuleProgress(b: Board, kind: UnitKind)
    requires |b| == 81
    ensures Committed(b, Rule(b, kind).board)
    ensures FreeCells(Rule(b, kind).board) <= FreeCells(b)
    ensures Rule(b, kind).status == Done(true) ==> FreeCells(Rule(b, kind).board) < FreeCells(b)
    ensures Rule(b, kind).status == Done(false) ==> SameFill(b, Rule(b, kind).board)
    ensures WellFormed(b) ==> WellFormed(Rule(b, kind).board)
  {
    var r := Recompute(b);
    RuleIsApply(b, kind);
    PlanProgress(r, kind);
    SameFillFreeCells(b, r);
    SameFillCommitted(b, r);
    CommittedTrans(b, r, Rule(b, kind).board);
    if WellFormed(b) {
      RecomputeWellFormed(b);
    }
  }

  /** The progress facts of carrying out a board's own hidden-single plan. */
  lemma PlanProgress(R: Board, kind: UnitKind)
    requires |R| == 81
    ensures Committed(R, Apply(R, Plan(R, kind)).board)
    ensures FreeCells(Apply(R, Plan(R, kind)).board) <= FreeCells(R)
    ensures Apply(R, Plan(R, kind)).status == Done(true) ==> FreeCells(Apply(R, Plan(R, kind)).board) < FreeCells(R)
    ensures Apply(R, Plan(R, kind)).status == Done(false) ==> Apply(R, Plan(R, kind)).board == R
    ensures WellFormed(R) ==> WellFormed(Apply(R, Plan(R, kind)).board)
  {
    ApplyProgress(R, Plan(R, kind));
    if WellFormed(R) {
      ApplyWellFormed(R, Plan(R, kind));
    }
  }

  /** Carried out to its end, the hidden-single plan of a board commits
      every hidden single of that board to its digit. */
  lemma PlanCommitsHiddenSingles(R: Board, kind: UnitKind, i: int, d: int)
    requires |R| == 81 && 0 <= i < 81 && IsDigit(d)
    requires Apply(R, Plan(R, kind)).status.Done?
    requires UniqueHolder(R, kind, UnitOf(kind, i), d, PosOf(kind, i))
    ensures Apply(R, Plan(R, kind)).board[i].occupied
    ensures Apply(R, Plan(R, kind)).board[i].number == d
  {
    PlanCommitsAt(R, kind, CommitAt(i, d));
  }

  /** The same, for the cell and digit named by commit `a`. */
  lemma PlanCommitsAt(R: Board, kind: UnitKind, a: Assignment)
    requires |R| == 81 && IsDigit(a.digit)
    requires Apply(R, Plan(R, kind)).status.Done?
    requires UniqueHolder(R, kind, UnitOf(kind, Target(a)), a.digit, PosOf(kind, Target(a)))
    ensures Apply(R, Plan(R, kind)).board[Target(a)].occupied
    ensures Apply(R, Plan(R, kind)).board[Target(a)].number == a.digit
  {
    var plan := Plan(R, kind);
    PlanExactly(R, kind, a);
    var k :| 0 <= k < |plan| && plan[k] == a;
    ApplyCommitsAll(R, plan, k);
  }

  /** A cell the hidden-single plan of a board changes was unoccupied and
      now holds a hidden single of that board. */
  lemma PlanChangesOnlyHiddenSingles(R: Board, kind: UnitKind, i: int)
    requires |R| == 81 && 0 <= i < 81
    requires Apply(R, Plan(R, kind)).board[i] != R[i]
    ensures !R[i].occupied
    ensures Apply(R, Plan(R, kind)).board[i].occupied
    ensures UniqueHolder(R, kind, UnitOf(kind, i), Apply(R, Plan(R, kind)).board[i].number, PosOf(kind, i))
  {
    var plan := Plan(R, kind);
    ApplyChangesOnlyTargets(R, plan, i);
    var k :| 0 <= k < |plan| && Target(plan[k]) == i && Apply(R, plan).board[i] == Filled(plan[k].digit);
    PlanExactly(R, kind, plan[k]);
  }

  /** The hidden-single rule commits precisely the digits that, in the
      candidate lists recomputed at its start, have exactly one position in a
      unit; when it ends normally every such cell holds its digit. */
  lemma RuleCommitsHiddenSingles(b: Board, kind: UnitKind, i: int, d: int)
    requires |b| == 81 && 0 <= i < 81 && IsDigit(d)
    requires UniqueHolder(Recompute(b), kind, UnitOf(kind, i), d, PosOf(kind, i))
    requires Rule(b, kind).status.Done?
    ensures Rule(b, kind).board[i].occupied
    ensures Rule(b, kind).board[i].number == d
  {
    RuleIsApply(b, kind);
    PlanCommitsHiddenSingles(Recompute(b), kind, i, d);
  }

  /** A cell the rule changes got a digit that was, at the rule's start, a
      candidate of that cell and of no other cell of its unit. */
  lemma RuleChangesOnlyHiddenSingles(b: Board, kind: UnitKind, i: int)
    requires |b| == 81 && 0 <= i < 81
    requires Rule(b, kind).board[i] != Recompute(b)[i]
    ensures !b[i].occupied
    ensures Rule(b, kind).board[i].occupied
    ensures UniqueHolder(Recompute(b), kind, UnitOf(kind, i), Rule(b, kind).board[i].number, PosOf(kind, i))
  {
    RuleIsApply(b, kind);
    PlanChangesOnlyHiddenSingles(Recompute(b), kind, i);
  }

  // ------------------------------------------------------------------
  // The driver

  /** The hidden-single rule of `kind` run after `s`, unless `s` raised;
      the change flags accumulate. */
  function Then(s: Step, kind: UnitKind): (t: Step)
    requires |s.board| == 81
    ensures |t.board| == 81
  {
    if s.status.Raised? then s
    else
      var r := Rule(s.board, kind);
      if r.status.Raised? then r else Step(r.board, Done(s.status.changed || r.status.changed))
  }

  /** A rule run after a step that did not raise: a raise ends the
      chain, otherwise the change flags are or-ed. */
  lemma ThenOf(s: Step, kind: UnitKind, t: Step)
    requires |s.board| == 81 && s.status.Done? && t == Rule(s.board, kind)
    ensures Then(s, kind) == if t.status.Raised? then t else Step(t.board, Done(s.status.changed || t.status.changed))
  {
  }

  /** One pass: forced singles, then the row, column and block rules; the
      first rule that raises ends the pass. `changed` is whether any of the
      four committed a cell. */
  function Pass(b: Board): (s: Step)
    requires |b| == 81
    ensures |s.board| == 81
  {
    Then(Then(Then(Eliminate(b), Row), Col), Block)
  }

  /** The progress facts of a step `s` taken from board `b`: committed cells
      stay, unoccupied cells only decrease, strictly when a change is
      reported, and nothing is committed when none is. */
  predicate Progress(b: Board, s: Step) {
    && Committed(b, s.board)
    && FreeCells(s.board) <= FreeCells(b)
    && (s.status == Done(true) ==> FreeCells(s.board) < FreeCells(b))
    && (s.status == Done(false) ==> SameFill(b, s.board))
  }

  /** Running one more rule keeps the progress facts and the cell invariant. */
  lemma ThenProgress(b: Board, s: Step, kind: UnitKind)
    requires |b| == 81 && |s.board| == 81 && Progress(b, s)
    ensures Progress(b, Then(s, kind))
    ensures WellFormed(s.board) ==> WellFormed(Then(s, kind).board)
  {
    if !s.status.Raised? {
      var r := Rule(s.board, kind);
      RuleProgress(s.board, kind);
      CommittedTrans(b, s.board, r.board);
      if s.status == Done(false) && r.status == Done(false) {
        SameFillTrans(b, s.board, r.board);
      }
    }
  }

  /** A pass never frees or renumbers a committed cell; when it reports a
      change it leaves fewer unoccupied cells, when it reports none it leaves
      the numbers as they were; it keeps the cell invariant. */
  lemma PassProgress(b: Board)
    requires |b| == 81
    ensures Committed(b, Pass(b).board)
    ensures FreeCells(Pass(b).board) <= FreeCells(b)
    ensures Pass(b).status == Done(true) ==> FreeCells(Pass(b).board) < FreeCells(b)
    ensures Pass(b).status == Done(false) ==> SameFill(b, Pass(b).board)
    ensures WellFormed(b) ==> WellFormed(Pass(b).board)
  {
    var e := Eliminate(b);
    EliminateProgress(b);
    if WellFormed(b) {
      EliminateWellFormed(b);
    }
    var s1 := Then(e, Row);
    ThenProgress(b, e, Row);
    var s2 := Then(s1, Col);
    ThenProgress(b, s1, Col);
    ThenProgress(b, s2, Block);
  }

  /** The final board and whether a rule raised. */
  datatype Solution = Solution(board: Board, raised: bool)

  /** The solver loop: passes until the board is completed, a pass commits
      nothing, or a rule raises. */
  function Solve(b: Board): (s: Solution)
    requires |b| == 81
    ensures |s.board| == 81
    ensures Completed(b) ==> s == Solution(b, false)
    decreases |FreeCells(b)|
  {
    if Completed(b) then Solution(b, false)
    else
      var p := Pass(b);
      match p.status
      case Raised => Solution(p.board, true)
      case Done(changed) =>
        if !changed then Solution(p.board, false)
        else
          PassProgress(b);
          ProperSubsetSmaller(FreeCells(p.board), FreeCells(b));
          Solve(p.board)
  }

  /** The three ways one round of the solver loop ends. */
  lemma SolveCases(b: Board)
    requires |b| == 81
    ensures Completed(b) ==> Solve(b).board == b
    ensures !Completed(b) && Pass(b).status == Raised ==> Solve(b) == Solution(Pass(b).board, true)
    ensures !Completed(b) && Pass(b).status == Done(false) ==> Solve(b) == Solution(Pass(b).board, false)
    ensures !Completed(b) && Pass(b).status == Done(true) ==> Solve(b) == Solve(Pass(b).board)
  {
  }

  /** The solver never frees or renumbers a committed cell. */
  lemma {:induction false} SolveCommitted(b: Board)
    requires |b| == 81
    ensures Committed(b, Solve(b).board)
    decreases |FreeCells(b)|
  {
    SolveCases(b);
    if !Completed(b) {
      var p := Pass(b);
      PassProgress(b);
      match p.status
      case Raised =>
      case Done(changed) =>
        if changed {
          ProperSubsetSmaller(FreeCells(p.board), FreeCells(b));
          SolveCommitted(p.board);
          CommittedTrans(b, p.board, Solve(p.board).board);
        }
    }
  }

  /** The solver keeps the cell invariant. */
  lemma {:induction false} SolveWellFormed(b: Board)
    requires WellFormed(b)
    ensures WellFormed(Solve(b).board)
    decreases |FreeCells(b)|
  {
    SolveCases(b);
    if !Completed(b) {
      var p := Pass(b);
      PassProgress(b);
      match p.status
      case Raised =>
      case Done(changed) =>
        if changed {
          ProperSubsetSmaller(FreeCells(p.board), FreeCells(b));
          SolveWellFormed(p.board);
        }
    }
  }

  /** Elimination reads only numbers and occupancy of a board that is not
      completed. */
  lemma EliminateSameFill(b: Board, b': Board)
    requires |b| == 81 && SameFill(b, b') && !Completed(b)
    ensures Eliminate(b) == Eliminate(b')
  {
    assert !Completed(b');
    RecomputeSameFill(b, b');
  }

  /** A pass reads only numbers and occupancy. */
  lemma PassSameFill(b: Board, b': Board)
    requires |b| == 81 && SameFill(b, b')
    ensures Pass(b) == Pass(b')
  {
    if Completed(b) {
      assert Completed(b');
      ThenSameFill(Eliminate(b), Eliminate(b'), Row);
    } else {
      EliminateSameFill(b, b');
    }
  }

  /** A rule run after two steps that did not raise, with the same status and
      boards with the same numbers and occupancy, gives the same step. */
  lemma ThenSameFill(s: Step, s': Step, kind: UnitKind)
    requires |s.board| == 81 && SameFill(s.board, s'.board) && s.status == s'.status && s.status.Done?
    ensures Then(s, kind) == Then(s', kind)
  {
    RuleSameFill(s.board, s'.board, kind);
  }

  /** A hidden-single rule reads only numbers and occupancy. */
  lemma RuleSameFill(b: Board, b': Board, kind: UnitKind)
    requires |b| == 81 && SameFill(b, b')
    ensures Rule(b, kind) == Rule(b', kind)
  {
    RecomputeSameFill(b, b');
  }

  /** When the solver stops without an error, either no cell holds 0 or
      one more pass would commit nothing. */
  lemma {:induction false} SolveStops(b: Board)
    requires |b| == 81
    ensures !Solve(b).raised ==>
      Completed(Solve(b).board) || Pass(Solve(b).board) == Step(Solve(b).board, Done(false))
    decreases |FreeCells(b)|
  {
    SolveCases(b);
    if !Completed(b) {
      var p := Pass(b);
      PassProgress(b);
      match p.status
      case Raised =>
      case Done(changed) =>
        if changed {
          ProperSubsetSmaller(FreeCells(p.board), FreeCells(b));
          SolveStops(p.board);
        } else if !Completed(p.board) {
          PassSameFill(b, p.board);
        }
    }
  }
}
