/**
 The backtracking fallback: fill the first empty cell (row-major) with each of
 its legal digits in turn, recurse, and undo the cell when every digit fails.
 */
module Search {
  import opened Board
  import opened Candidates
  import opened Validation

  /** Every cell numbered p..q-1 in row-major order holds a digit. */
  ghost predicate FilledBetween(g: Grid, p: int, q: int)
    requires Square9(g)
  {
    forall a, b :: InBounds(a, b) && p <= a * 9 + b < q ==> g[a][b] in Digits
  }

  lemma FilledExtend(g: Grid, i: int, j: int, q: int)
    requires Square9(g) && InBounds(i, j) && g[i][j] in Digits
    requires FilledBetween(g, i * 9 + j + 1, q)
    ensures FilledBetween(g, i * 9 + j, q)
  {
  }

  /**
   The first cell from (i, j) on, in row-major order, that does not hold a
   digit; every cell scanned before it holds one.
   */
  function NextEmptyFrom(g: Grid, i: int, j: int): (r: Option<(int, int)>)
    requires Square9(g) && (InBounds(i, j) || (i == 9 && j == 0))
    ensures r.Some? ==>
      && InBounds(r.value.0, r.value.1)
      && g[r.value.0][r.value.1] !in Digits
      && i * 9 + j <= r.value.0 * 9 + r.value.1
      && FilledBetween(g, i * 9 + j, r.value.0 * 9 + r.value.1)
    ensures r.None? ==> FilledBetween(g, i * 9 + j, 81)
    decreases 81 - (i * 9 + j)
  {
    if i == 9 then None
    else if g[i][j] !in Digits then Some((i, j))
    else
      var r := if j == 8 then NextEmptyFrom(g, i + 1, 0) else NextEmptyFrom(g, i, j + 1);
      FilledExtend(g, i, j, if r.Some? then r.value.0 * 9 + r.value.1 else 81);
      r
  }

  /** The first empty cell of the grid in row-major order, or None when every cell holds a digit. */
  function NextStep(g: Grid): (r: Option<(int, int)>)
    requires Square9(g)
    ensures r.None? <==> EmptyCells(g) == {}
    ensures r.Some? ==> r.value in EmptyCells(g) && FilledBetween(g, 0, r.value.0 * 9 + r.value.1)
  {
    var r := NextEmptyFrom(g, 0, 0);
    if r.Some? then
      assert r.value in EmptyCells(g);
      r
    else
      assert forall a, b :: InBounds(a, b) ==> 0 <= a * 9 + b < 81;
      r
  }

  /**
   Every cell of h holds what it held in g, except cells that held no digit in
   g, which may have been reset to 0.
   */
  ghost predicate ResetOnly(g: Grid, h: Grid)
    requires Square9(g) && Square9(h)
  {
    forall i, j :: InBounds(i, j) ==> h[i][j] == g[i][j] || (g[i][j] !in Digits && h[i][j] == 0)
  }

  /** Resetting cells that hold no digit leaves the digits where they are. */
  lemma ResetKeepsDigits(g: Grid, h: Grid)
    requires Square9(g) && Square9(h) && ResetOnly(g, h)
    ensures SameDigits(g, h) && KeepsGivens(g, h)
  {
  }

  /** ResetOnly on every cell but (i, j). */
  ghost predicate ResetOutside(g: Grid, h: Grid, i: int, j: int)
    requires Square9(g) && Square9(h)
  {
    forall a, b :: InBounds(a, b) && (a != i || b != j) ==> h[a][b] == g[a][b] || (g[a][b] !in Digits && h[a][b] == 0)
  }

  lemma ResetOutsideFilled(g: Grid, h: Grid, i: int, j: int)
    requires Square9(g) && Square9(h) && ResetOutside(g, h, i, j)
    ensures forall r, c :: InBounds(r, c) && (r != i || c != j) ==> (h[r][c] in Digits <==> g[r][c] in Digits)
  {
  }

  /** A failed trial at (i, j) keeps the reset discipline on the other cells. */
  lemma ResetAfterFailure(g: Grid, cur: Grid, i: int, j: int, v: int, after: Grid)
    requires Square9(g) && Square9(cur) && Square9(after) && InBounds(i, j)
    requires ResetOutside(g, cur, i, j) && ResetOnly(SetCell(cur, i, j, v), after)
    ensures ResetOutside(g, after, i, j)
  {
  }

  /** A successful trial at the empty cell (i, j) keeps the givens of g. */
  lemma GivensAfterSuccess(g: Grid, cur: Grid, i: int, j: int, v: int, after: Grid)
    requires Square9(g) && Square9(cur) && Square9(after) && InBounds(i, j) && g[i][j] !in Digits
    requires ResetOutside(g, cur, i, j) && KeepsGivens(SetCell(cur, i, j, v), after)
    ensures KeepsGivens(g, after)
  {
  }

  /**
   Undoing the empty cell (i, j) after every digit failed: the result is
   invalid, only resets cells of g, and equals g when g holds only 0..9.
   */
  lemma UndoCell(g: Grid, cur: Grid, i: int, j: int)
    requires Square9(g) && Square9(cur) && InBounds(i, j) && g[i][j] !in Digits
    requires ResetOutside(g, cur, i, j)
    ensures !IsValid(SetCell(cur, i, j, 0))
    ensures ResetOnly(g, SetCell(cur, i, j, 0))
    ensures Values0To9(g) ==> SetCell(cur, i, j, 0) == g
  {
    var r := SetCell(cur, i, j, 0);
    IncompleteIsInvalid(r, i, j);
    if Values0To9(g) {
      TablesEqual(g, r);
    }
  }

  /** s is a solution that keeps every given of g. */
  ghost predicate Completes(g: Grid, s: Grid)
    requires Square9(g)
  {
    Square9(s) && IsValid(s) && KeepsGivens(g, s)
  }

  /** Some valid grid keeps every given of g. */
  ghost predicate Solvable(g: Grid)
    requires Square9(g)
  {
    exists s :: Completes(g, s)
  }

  /** Every solution keeping the givens of g holds at least nr at (i, j). */
  ghost predicate NoneBelow(g: Grid, i: int, j: int, nr: int)
    requires Square9(g) && InBounds(i, j)
  {
    forall s :: Completes(g, s) ==> nr <= s[i][j]
  }

  /**
   A solution keeping the givens puts a legal digit into every empty cell:
   its digit there occurs nowhere in the row, column or box of g.
   */
  lemma SolutionCandidate(g: Grid, s: Grid, i: int, j: int)
    requires Square9(g) && Completes(g, s) && InBounds(i, j) && g[i][j] !in Digits
    ensures s[i][j] in PossibleValues(i, j, g)
  {
    ValidIffSolved(s);
    var d := s[i][j];
    forall c | 0 <= c < 9 ensures g[i][c] != d {
      if c != j && g[i][c] in Digits {
        assert s[i][c] == g[i][c];
        if c < j { assert s[i][c] != s[i][j]; } else { assert s[i][j] != s[i][c]; }
      }
    }
    forall r | 0 <= r < 9 ensures g[r][j] != d {
      if r != i && g[r][j] in Digits {
        assert s[r][j] == g[r][j];
        if r < i { assert s[r][j] != s[i][j]; } else { assert s[i][j] != s[r][j]; }
      }
    }
    forall r, c | InBounds(r, c) && SameBox(r, c, i, j) ensures g[r][c] != d {
      if (r != i || c != j) && g[r][c] in Digits {
        assert s[r][c] == g[r][c];
      }
    }
  }

  /** A valid grid keeping the givens of g witnesses that g is solvable. */
  lemma SolutionWitness(g: Grid, s: Grid)
    requires Square9(g) && Square9(s) && IsValid(s) && KeepsGivens(g, s)
    ensures Solvable(g)
  {
    assert Completes(g, s);
  }

  /** A grid without empty cells is solvable exactly when it is itself valid. */
  lemma FilledSolvable(g: Grid)
    requires Square9(g) && EmptyCells(g) == {}
    ensures Solvable(g) <==> IsValid(g)
  {
    if IsValid(g) {
      SolutionWitness(g, g);
    } else if Solvable(g) {
      var s :| Completes(g, s);
      forall i, j | InBounds(i, j) ensures g[i][j] == s[i][j] {
        assert (i, j) !in EmptyCells(g);
      }
      TablesEqual(g, s);
    }
  }

  /** A trial digit that failed is the digit of no solution at (i, j). */
  lemma FailedTrial(g: Grid, cur: Grid, i: int, j: int, nr: int)
    requires Square9(g) && Square9(cur) && InBounds(i, j) && g[i][j] !in Digits
    requires ResetOutside(g, cur, i, j) && NoneBelow(g, i, j, nr)
    requires !Solvable(SetCell(cur, i, j, nr))
    ensures NoneBelow(g, i, j, nr + 1)
  {
    forall s | Completes(g, s) ensures nr + 1 <= s[i][j] {
      if s[i][j] == nr {
        assert Completes(SetCell(cur, i, j, nr), s);
      }
    }
  }

  /** A digit that is not legal at (i, j) is the digit of no solution there. */
  lemma SkippedDigit(g: Grid, i: int, j: int, nr: int)
    requires Square9(g) && InBounds(i, j) && g[i][j] !in Digits
    requires NoneBelow(g, i, j, nr) && nr !in PossibleValues(i, j, g)
    ensures NoneBelow(g, i, j, nr + 1)
  {
    forall s | Completes(g, s) ensures nr + 1 <= s[i][j] {
      SolutionCandidate(g, s, i, j);
    }
  }

  /** Once every digit is excluded at (i, j), there is no solution at all. */
  lemma Exhausted(g: Grid, i: int, j: int)
    requires Square9(g) && InBounds(i, j) && NoneBelow(g, i, j, 10)
    ensures !Solvable(g)
  {
  }

  /**
   Backtracking search over the grid, which main.py mutates in place: the
   grid it leaves behind is returned as r. It reports success exactly when r
   is valid; a success keeps every given; a failure leaves every given and
   resets each cell it tried to 0, so a grid of 0..9 values comes back unchanged.
   */
  method TryCombinations(g: Grid) returns (found: bool, r: Grid)
    requires Square9(g)
    ensures Square9(r)
    ensures found <==> IsValid(r)
    ensures found <==> Solvable(g)
    ensures found ==> KeepsGivens(g, r)
    ensures !found ==> ResetOnly(g, r)
    ensures !found && Values0To9(g) ==> r == g
    decreases EmptyCount(g)
  {
    var step := NextStep(g);
    if step.None? {
      FilledSolvable(g);
      return IsValid(g), g;
    }
    var i, j := step.value.0, step.value.1;
    var nrs := PossibleValues(i, j, g);
    var cur := g;
    var nr := 1;
    while nr <= 9
      invariant 1 <= nr <= 10
      invariant Square9(cur)
      invariant ResetOutside(g, cur, i, j)
      invariant NoneBelow(g, i, j, nr)
    {
      if nr !in nrs {
        SkippedDigit(g, i, j, nr);
      } else {
        var trial := SetCell(cur, i, j, nr);
        ResetOutsideFilled(g, cur, i, j);
        FillCell(g, cur, i, j, nr);
        var ok, after := TryCombinations(trial);
        if ok {
          GivensAfterSuccess(g, cur, i, j, nr, after);
          SolutionWitness(g, after);
          return true, after;
        }
        FailedTrial(g, cur, i, j, nr);
        ResetAfterFailure(g, cur, i, j, nr, after);
        cur := after;
      }
      nr := nr + 1;
    }
    Exhausted(g, i, j);
    UndoCell(g, cur, i, j);
    return false, SetCell(cur, i, j, 0);
  }
}
