/**
 One propagation pass: from a single candidate table, find every cell whose
 value is forced (a single candidate) or is a hidden single, then apply all
 of those steps to the grid together.
 */
module Propagation {
  import opened Board
  import opened Candidates

  /** A determined assignment of digit to cell (row, col), not yet applied. */
  datatype Step = Step(row: int, col: int, digit: int)

  /** Position of a step's cell in row-major order. */
  function Index(s: Step): (n: int) {
    s.row * 9 + s.col
  }

  /**
   Scans s from position from on: is there an entry other than the one at
   position index that contains item?
   */
  function OtherContains(s: seq<set<int>>, index: int, item: int, from: nat): (r: bool)
    requires from <= |s|
    ensures r <==> exists k :: from <= k < |s| && k != index && item in s[k]
    decreases |s| - from
  {
    if from == |s| then false
    else if from != index && item in s[from] then true
    else OtherContains(s, index, item, from + 1)
  }

  /** Some other cell of row i lists d as a candidate. */
  ghost predicate RowHasOther(poss: Table<set<int>>, i: int, j: int, d: int)
    requires Square9(poss) && 0 <= i < 9
  {
    exists c :: 0 <= c < 9 && c != j && d in poss[i][c]
  }

  /** Some other cell of column j lists d as a candidate. */
  ghost predicate ColumnHasOther(poss: Table<set<int>>, i: int, j: int, d: int)
    requires Square9(poss) && 0 <= j < 9
  {
    exists r :: 0 <= r < 9 && r != i && d in poss[r][j]
  }

  /** Some other cell of the box of (i, j) lists d as a candidate. */
  ghost predicate BoxHasOther(poss: Table<set<int>>, i: int, j: int, d: int)
    requires Square9(poss)
  {
    exists r, c :: InBounds(r, c) && SameBox(r, c, i, j) && (r != i || c != j) && d in poss[r][c]
  }

  /**
   The hidden-single condition: at least one of the three regions of (i, j)
   has no other cell listing d, so d has no other place there.
   */
  ghost predicate HiddenSingle(poss: Table<set<int>>, i: int, j: int, d: int)
    requires Square9(poss) && InBounds(i, j)
  {
    !RowHasOther(poss, i, j, d) || !ColumnHasOther(poss, i, j, d) || !BoxHasOther(poss, i, j, d)
  }

  /**
   Whether nr could go to another cell: true only when the column, the row and
   the box of (i, j) each have another cell listing nr.
   */
  function CanBePlacedElsewhere(i: int, j: int, nr: int, poss: Table<set<int>>): (r: bool)
    requires Square9(poss) && InBounds(i, j)
    ensures r <==> ColumnHasOther(poss, i, j, nr) && RowHasOther(poss, i, j, nr) && BoxHasOther(poss, i, j, nr)
    ensures !r <==> HiddenSingle(poss, i, j, nr)
  {
    BoxOther(poss, i, j, nr);
    OtherContains(Column(j, poss), i, nr, 0)
    && OtherContains(Row(i, poss), j, nr, 0)
    && OtherContains(Field(i, j, poss), SelfIndex(i, j), nr, 0)
  }

  /** The box scan skips exactly cell (i, j) itself. */
  lemma BoxOther(poss: Table<set<int>>, i: int, j: int, nr: int)
    requires Square9(poss) && InBounds(i, j)
    ensures (exists k :: 0 <= k < 9 && k != SelfIndex(i, j) && nr in Field(i, j, poss)[k]) <==> BoxHasOther(poss, i, j, nr)
  {
    var box := Field(i, j, poss);
    BoxCellsInBox(i, j);
    BoxCellsCovered(i, j);
    SelfIndexInverse(i, j);
    if k :| 0 <= k < 9 && k != SelfIndex(i, j) && nr in box[k] {
      var r, c := BoxRow(i, k), BoxCol(j, k);
      assert SelfIndex(r, c) == k;
      assert InBounds(r, c) && SameBox(r, c, i, j) && (r != i || c != j) && nr in poss[r][c];
    }
    if BoxHasOther(poss, i, j, nr) {
      var r, c :| InBounds(r, c) && SameBox(r, c, i, j) && (r != i || c != j) && nr in poss[r][c];
      var k := SelfIndex(r, c);
      assert BoxRow(i, k) == r && BoxCol(j, k) == c;
      assert k != SelfIndex(i, j);
      assert nr in box[k];
    }
  }

  /** The least member of s among d..9, if any. */
  function FirstMember(s: set<int>, d: int): (r: Option<int>)
    requires 1 <= d <= 10
    ensures r.Some? ==> d <= r.value <= 9 && r.value in s
    ensures forall e :: d <= e <= 9 && (r.None? || e < r.value) ==> e !in s
    decreases 10 - d
  {
    if d == 10 then None
    else if d in s then Some(d)
    else FirstMember(s, d + 1)
  }

  /**
   The first candidate of (i, j) among d..9, in ascending order, that cannot
   be placed elsewhere.
   */
  function FirstHidden(i: int, j: int, poss: Table<set<int>>, d: int): (r: Option<int>)
    requires Square9(poss) && InBounds(i, j) && 1 <= d <= 10
    ensures r.Some? ==> d <= r.value <= 9 && r.value in poss[i][j] && HiddenSingle(poss, i, j, r.value)
    ensures forall e :: d <= e <= 9 && (r.None? || e < r.value) && e in poss[i][j] ==> !HiddenSingle(poss, i, j, e)
    decreases 10 - d
  {
    if d == 10 then None
    else if d in poss[i][j] && !CanBePlacedElsewhere(i, j, d, poss) then Some(d)
    else FirstHidden(i, j, poss, d + 1)
  }

  /**
   The step found for cell (i, j): the sole candidate when there is exactly
   one, otherwise the least candidate that is a hidden single. Cells with no
   candidates (in particular the filled ones) get no step.
   */
  function CellStep(i: int, j: int, poss: Table<set<int>>): (r: Option<int>)
    requires Square9(poss) && CandidateTable(poss) && InBounds(i, j)
    ensures r.Some? ==> r.value in poss[i][j]
    ensures |poss[i][j]| == 1 ==> r.Some? && poss[i][j] == {r.value}
    ensures |poss[i][j]| != 1 && r.Some? ==>
      HiddenSingle(poss, i, j, r.value) && forall e :: e in poss[i][j] && e < r.value ==> !HiddenSingle(poss, i, j, e)
    ensures |poss[i][j]| != 1 && r.None? ==> forall e :: e in poss[i][j] ==> !HiddenSingle(poss, i, j, e)
  {
    var current := poss[i][j];
    assert current <= Digits;
    if |current| == 1 then
      SingletonFirst(current);
      FirstMember(current, 1)
    else
      assert forall e :: e in current ==> 1 <= e <= 9;
      FirstHidden(i, j, poss, 1)
  }

  /** The least member of a one-digit set is its only member. */
  lemma SingletonFirst(s: set<int>)
    requires s <= Digits && |s| == 1
    ensures FirstMember(s, 1).Some? && s == {FirstMember(s, 1).value}
  {
    var x :| x in s;
    assert s == {x} by {
      assert |s - {x}| == 0;
    }
    var first := FirstMember(s, 1);
    assert first.Some? && first.value == x;
  }

  /** The cell of step n is (i, j) for some n. */
  ghost predicate Targets(steps: seq<Step>, i: int, j: int) {
    exists n :: 0 <= n < |steps| && steps[n].row == i && steps[n].col == j
  }

  /** No two steps name the same cell. */
  ghost predicate DistinctCells(steps: seq<Step>) {
    forall n, m :: 0 <= n < m < |steps| ==> steps[n].row != steps[m].row || steps[n].col != steps[m].col
  }

  /** The cells the steps name. */
  ghost function StepCells(steps: seq<Step>): set<(int, int)> {
    set n | 0 <= n < |steps| :: (steps[n].row, steps[n].col)
  }

  /** Every step names a cell of the board. */
  ghost predicate OnBoard(steps: seq<Step>) {
    forall n :: 0 <= n < |steps| ==> 0 <= steps[n].row < 9 && 0 <= steps[n].col < 9
  }

  /** The per-cell results of a pass over a candidate table. */
  function CellSteps(poss: Table<set<int>>): (found: Table<Option<int>>)
    requires Square9(poss) && CandidateTable(poss)
    ensures Square9(found)
    ensures forall i, j :: InBounds(i, j) ==> found[i][j] == CellStep(i, j, poss)
  {
    seq(9, i requires 0 <= i < 9 => seq(9, j requires 0 <= j < 9 => CellStep(i, j, poss)))
  }

  /**
   steps lists, in row-major order, exactly one step for each cell numbered p
   or later whose entry in found is Some, carrying that entry's digit.
   */
  ghost predicate Collected(found: seq<seq<Option<int>>>, p: int, steps: seq<Step>)
    requires Square9(found)
  {
    && OnBoard(steps)
    && (forall n :: 0 <= n < |steps| ==> p <= Index(steps[n]) && found[steps[n].row][steps[n].col] == Some(steps[n].digit))
    && (forall n, m :: 0 <= n < m < |steps| ==> Index(steps[n]) < Index(steps[m]))
    && (forall r, c :: InBounds(r, c) && p <= r * 9 + c && found[r][c].Some? ==> Targets(steps, r, c))
  }

  lemma CollectCons(found: seq<seq<Option<int>>>, i: int, j: int, rest: seq<Step>)
    requires Square9(found) && InBounds(i, j) && found[i][j].Some?
    requires Collected(found, i * 9 + j + 1, rest)
    ensures Collected(found, i * 9 + j, [Step(i, j, found[i][j].value)] + rest)
  {
    var p := i * 9 + j;
    var steps := [Step(i, j, found[i][j].value)] + rest;
    assert steps[0].row == i && steps[0].col == j && Index(steps[0]) == p;
    forall n | 1 <= n < |steps| ensures steps[n] == rest[n - 1] && p < Index(steps[n]) {
    }
    forall n, m | 0 <= n < m < |steps| ensures Index(steps[n]) < Index(steps[m]) {
      if n > 0 {
        assert steps[n] == rest[n - 1] && steps[m] == rest[m - 1];
      }
    }
    forall r, c | InBounds(r, c) && p <= r * 9 + c && found[r][c].Some?
      ensures Targets(steps, r, c)
    {
      if r == i && c == j {
        assert steps[0].row == r && steps[0].col == c;
      } else {
        assert Targets(rest, r, c);
        var n :| 0 <= n < |rest| && rest[n].row == r && rest[n].col == c;
        assert steps[n + 1] == rest[n];
      }
    }
  }

  lemma CollectSkip(found: seq<seq<Option<int>>>, i: int, j: int, rest: seq<Step>)
    requires Square9(found) && InBounds(i, j) && found[i][j].None?
    requires Collected(found, i * 9 + j + 1, rest)
    ensures Collected(found, i * 9 + j, rest)
  {
  }

  /** The step of cell (i, j), if any, in front of the steps of the cells after it. */
  function CollectAt(found: seq<seq<Option<int>>>, i: int, j: int, rest: seq<Step>): (steps: seq<Step>)
    requires Square9(found) && InBounds(i, j)
    requires Collected(found, i * 9 + j + 1, rest)
    ensures Collected(found, i * 9 + j, steps)
  {
    match found[i][j]
    case Some(d) =>
      CollectCons(found, i, j, rest);
      [Step(i, j, d)] + rest
    case None =>
      CollectSkip(found, i, j, rest);
      rest
  }

  /** The steps of the cells from (i, j) on, scanned row by row. */
  function Collect(found: seq<seq<Option<int>>>, i: int, j: int): (steps: seq<Step>)
    requires Square9(found) && (InBounds(i, j) || (i == 9 && j == 0))
    ensures Collected(found, i * 9 + j, steps)
    decreases 81 - (i * 9 + j)
  {
    if i == 9 then []
    else if j == 8 then
      var rest := Collect(found, i + 1, 0);
      assert (i + 1) * 9 + 0 == i * 9 + j + 1;
      CollectAt(found, i, j, rest)
    else
      CollectAt(found, i, j, Collect(found, i, j + 1))
  }

  /**
   All steps of one pass over g: candidates are computed once, only empty cells
   get a step, each at most one, carrying one of the cell's legal digits; and
   every cell for which CellStep finds a digit does get its step.
   */
  function FindNextSteps(g: Grid): (steps: seq<Step>)
    requires Square9(g)
    ensures OnBoard(steps) && DistinctCells(steps)
    ensures forall n :: 0 <= n < |steps| ==>
      g[steps[n].row][steps[n].col] !in Digits
      && steps[n].digit in PossibleValues(steps[n].row, steps[n].col, g)
      && CellStep(steps[n].row, steps[n].col, Possibilities(g)) == Some(steps[n].digit)
    ensures forall i, j :: InBounds(i, j) && CellStep(i, j, Possibilities(g)).Some? ==> Targets(steps, i, j)
  {
    var poss := Possibilities(g);
    var found := CellSteps(poss);
    var steps := Collect(found, 0, 0);
    CollectedDistinct(found, steps);
    forall n | 0 <= n < |steps|
      ensures g[steps[n].row][steps[n].col] !in Digits
      ensures steps[n].digit in PossibleValues(steps[n].row, steps[n].col, g)
      ensures CellStep(steps[n].row, steps[n].col, poss) == Some(steps[n].digit)
    {
      CollectedSound(found, steps, n);
      CandidateOfEmpty(g, steps[n].row, steps[n].col, steps[n].digit);
    }
    forall i, j | InBounds(i, j) && CellStep(i, j, poss).Some?
      ensures Targets(steps, i, j)
    {
      CollectedComplete(found, steps, i, j);
    }
    steps
  }

  lemma CollectedSound(found: seq<seq<Option<int>>>, steps: seq<Step>, n: int)
    requires Square9(found) && Collected(found, 0, steps) && 0 <= n < |steps|
    ensures InBounds(steps[n].row, steps[n].col)
    ensures found[steps[n].row][steps[n].col] == Some(steps[n].digit)
  {
  }

  lemma CollectedDistinct(found: seq<seq<Option<int>>>, steps: seq<Step>)
    requires Square9(found) && Collected(found, 0, steps)
    ensures OnBoard(steps) && DistinctCells(steps)
  {
    forall n, m | 0 <= n < m < |steps|
      ensures steps[n].row != steps[m].row || steps[n].col != steps[m].col
    {
      assert Index(steps[n]) < Index(steps[m]);
    }
  }

  lemma CollectedComplete(found: seq<seq<Option<int>>>, steps: seq<Step>, i: int, j: int)
    requires Square9(found) && Collected(found, 0, steps) && InBounds(i, j) && found[i][j].Some?
    ensures Targets(steps, i, j)
  {
  }

  /**
   Applies the steps one after another. Cells no step names keep their value;
   when the steps name distinct cells, each named cell ends with its digit.
   */
  function PerformSteps(steps: seq<Step>, g: Grid): (h: Grid)
    requires Square9(g) && OnBoard(steps)
    ensures Square9(h)
    ensures forall i, j :: InBounds(i, j) && !Targets(steps, i, j) ==> h[i][j] == g[i][j]
    ensures DistinctCells(steps) ==> forall n :: 0 <= n < |steps| ==> h[steps[n].row][steps[n].col] == steps[n].digit
    decreases |steps|
  {
    if |steps| == 0 then g
    else
      var s := steps[0];
      var rest := steps[1..];
      var h := PerformSteps(rest, SetCell(g, s.row, s.col, s.digit));
      assert forall i, j :: Targets(rest, i, j) ==> Targets(steps, i, j) by {
        forall i, j | Targets(rest, i, j) ensures Targets(steps, i, j) {
          var n :| 0 <= n < |rest| && rest[n].row == i && rest[n].col == j;
          assert steps[n + 1] == rest[n];
        }
      }
      assert Targets(steps, s.row, s.col) by {
        assert steps[0] == s;
      }
      assert DistinctCells(steps) ==> !Targets(rest, s.row, s.col) by {
        forall n | 0 <= n < |rest| && DistinctCells(steps)
          ensures rest[n].row != s.row || rest[n].col != s.col
        {
          assert steps[n + 1] == rest[n];
        }
      }
      assert DistinctCells(steps) ==> DistinctCells(rest) by {
        if DistinctCells(steps) {
          forall n, m | 0 <= n < m < |rest| ensures rest[n].row != rest[m].row || rest[n].col != rest[m].col {
            assert rest[n] == steps[n + 1] && rest[m] == steps[m + 1];
          }
        }
      }
      h
  }

  /** Steps that each name an empty cell and a digit, no cell twice. */
  ghost predicate FillsEmptyCells(steps: seq<Step>, g: Grid)
    requires Square9(g)
  {
    && OnBoard(steps)
    && DistinctCells(steps)
    && forall n :: 0 <= n < |steps| ==> g[steps[n].row][steps[n].col] !in Digits && steps[n].digit in Digits
  }

  /** Removing a non-empty set of empty cells lowers the count. */
  lemma RemoveCells(g: Grid, h: Grid, cells: set<(int, int)>)
    requires Square9(g) && Square9(h)
    requires cells <= EmptyCells(g) && cells != {} && EmptyCells(h) == EmptyCells(g) - cells
    ensures EmptyCount(h) < EmptyCount(g)
  {
    var c :| c in cells;
    assert EmptyCells(h) < EmptyCells(g);
  }

  /** The steps of a pass each name a distinct empty cell and a digit. */
  lemma PassSteps(g: Grid)
    requires Square9(g)
    ensures FillsEmptyCells(FindNextSteps(g), g)
  {
  }

  /** Writing digits into a grid of 0..9 values keeps it one. */
  lemma DigitsKeepRange(g: Grid, h: Grid)
    requires Square9(g) && Square9(h)
    requires forall i, j :: InBounds(i, j) ==> h[i][j] == g[i][j] || h[i][j] in Digits
    ensures Values0To9(g) ==> Values0To9(h)
  {
  }

  /**
   Applying steps that fill distinct empty cells with digits empties exactly
   the other empty cells, keeps the givens, keeps 0..9 values in 0..9, and
   lowers the number of empty cells when there is at least one step.
   */
  lemma ApplyFills(steps: seq<Step>, g: Grid)
    requires Square9(g) && FillsEmptyCells(steps, g)
    ensures StepCells(steps) <= EmptyCells(g)
    ensures EmptyCells(PerformSteps(steps, g)) == EmptyCells(g) - StepCells(steps)
    ensures KeepsGivens(g, PerformSteps(steps, g))
    ensures Values0To9(g) ==> Values0To9(PerformSteps(steps, g))
    ensures steps != [] ==> EmptyCount(PerformSteps(steps, g)) < EmptyCount(g)
  {
    var h := PerformSteps(steps, g);
    forall i, j | InBounds(i, j)
      ensures (i, j) in EmptyCells(h) <==> (i, j) in EmptyCells(g) && (i, j) !in StepCells(steps)
      ensures (i, j) in StepCells(steps) ==> (i, j) in EmptyCells(g)
      ensures h[i][j] == g[i][j] || h[i][j] in Digits
    {
      if n :| 0 <= n < |steps| && steps[n].row == i && steps[n].col == j {
        assert h[i][j] == steps[n].digit;
        assert (i, j) in StepCells(steps);
      } else {
        assert !Targets(steps, i, j);
        assert (i, j) !in StepCells(steps);
      }
    }
    DigitsKeepRange(g, h);
    if steps != [] {
      assert (steps[0].row, steps[0].col) in StepCells(steps);
      RemoveCells(g, h, StepCells(steps));
    }
  }

  /**
   One pass fills exactly the cells its steps name, all of them empty before,
   so the givens survive and a pass with steps leaves fewer empty cells.
   */
  lemma PassFillsEmptyCells(g: Grid)
    requires Square9(g)
    ensures Square9(PerformSteps(FindNextSteps(g), g))
    ensures EmptyCells(PerformSteps(FindNextSteps(g), g)) == EmptyCells(g) - StepCells(FindNextSteps(g))
    ensures KeepsGivens(g, PerformSteps(FindNextSteps(g), g))
    ensures Values0To9(g) ==> Values0To9(PerformSteps(FindNextSteps(g), g))
    ensures FindNextSteps(g) != [] ==> EmptyCount(PerformSteps(FindNextSteps(g), g)) < EmptyCount(g)
  {
    PassSteps(g);
    ApplyFills(FindNextSteps(g), g);
  }

  /**
   The grid the propagation loop of solve stops at: passes are applied until
   one finds no step. The result keeps the givens and keeps 0..9 values in
   0..9; PropagateStops shows no pass applies to it.
   */
  function Propagate(g: Grid): (p: Grid)
    requires Square9(g)
    ensures Square9(p) && KeepsGivens(g, p)
    ensures Values0To9(g) ==> Values0To9(p)
    decreases EmptyCount(g)
  {
    var steps := FindNextSteps(g);
    if steps == [] then g
    else
      PassFillsEmptyCells(g);
      Propagate(PerformSteps(steps, g))
  }

  /** Propagation stops only where a pass finds nothing. */
  lemma {:induction false} PropagateStops(g: Grid)
    requires Square9(g)
    ensures FindNextSteps(Propagate(g)) == []
    decreases EmptyCount(g)
  {
    var steps := FindNextSteps(g);
    if steps != [] {
      PassFillsEmptyCells(g);
      PropagateStops(PerformSteps(steps, g));
    }
  }

  /**
   A pass looks only at where the digits are: grids with the same digits in
   the same cells get the same candidate table and the same steps.
   */
  lemma SameDigitsSameSteps(g: Grid, h: Grid)
    requires Square9(g) && Square9(h) && SameDigits(g, h)
    ensures FindNextSteps(g) == FindNextSteps(h)
  {
    var pg, ph := Possibilities(g), Possibilities(h);
    SameDigitsPossibilities(g, h);
    assert FindNextSteps(g) == Collect(CellSteps(pg), 0, 0);
    assert FindNextSteps(h) == Collect(CellSteps(ph), 0, 0);
  }

  /** A pass over a grid without empty cells finds nothing to do. */
  lemma FilledGridHasNoSteps(g: Grid)
    requires Square9(g)
    ensures EmptyCells(g) == {} ==> FindNextSteps(g) == []
  {
    PassSteps(g);
    var steps := FindNextSteps(g);
    if steps != [] {
      assert (steps[0].row, steps[0].col) in EmptyCells(g);
    }
  }
}
