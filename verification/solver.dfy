/**
 The driver: propagation passes until a pass finds nothing, then, if the grid
 is not yet a valid solution, the backtracking search.
 */
module Solver {
  import opened Board
  import opened Propagation
  import opened Validation
  import opened Search

  /** A grid holding a digit in every cell has no empty cell. */
  lemma FilledHasNoEmptyCells(g: Grid)
    requires Square9(g) && AllFilled(g)
    ensures EmptyCells(g) == {}
    ensures Values0To9(g)
  {
  }

  /** A valid grid has no empty cell, so propagation leaves it as it is. */
  lemma ValidIsFilled(g: Grid)
    requires Square9(g) && IsValid(g)
    ensures EmptyCells(g) == {}
    ensures Values0To9(g)
    ensures Propagate(g) == g
  {
    FilledHasNoEmptyCells(g);
    FilledGridHasNoSteps(g);
  }

  /** A failed search only resets cells holding no digit, which no pass looks at. */
  lemma FailureKeepsStepless(p: Grid, r: Grid)
    requires Square9(p) && Square9(r) && ResetOnly(p, r) && FindNextSteps(p) == []
    ensures KeepsGivens(p, r)
    ensures FindNextSteps(r) == []
  {
    ResetKeepsDigits(p, r);
    SameDigitsSameSteps(p, r);
  }

  /**
   The propagation loop of solve: passes until one finds no step. It stops
   at Propagate(g), the same grid the recursive definition gives.
   */
  method RunPropagation(g: Grid) returns (cur: Grid)
    requires Square9(g)
    ensures Square9(cur) && cur == Propagate(g)
  {
    cur := g;
    while true
      invariant Square9(cur)
      invariant Propagate(cur) == Propagate(g)
      decreases EmptyCount(cur)
    {
      var steps := FindNextSteps(cur);
      if |steps| == 0 {
        return;
      }
      PassFillsEmptyCells(cur);
      cur := PerformSteps(steps, cur);
    }
  }

  /**
   Solves the grid, which main.py mutates in place; the final grid is r.
   The propagation loop stops exactly at Propagate(g). The search then never
   overwrites a digit that is there: when the search fails, r differs from
   Propagate(g) only by resetting cells that held no digit to 0, so r again
   admits no propagation step and, for a grid of 0..9 values, is Propagate(g)
   itself. A grid that is valid already, or becomes valid by propagation
   alone, is not searched. The search is complete, so r is valid exactly
   when some valid grid keeps every digit of Propagate(g).
   */
  method Solve(g: Grid) returns (r: Grid)
    requires Square9(g)
    ensures Square9(r)
    ensures KeepsGivens(g, r) && KeepsGivens(Propagate(g), r)
    ensures IsValid(g) ==> r == g
    ensures IsValid(Propagate(g)) ==> r == Propagate(g)
    ensures !IsValid(r) ==> ResetOnly(Propagate(g), r) && FindNextSteps(r) == []
    ensures !IsValid(r) && Values0To9(g) ==> r == Propagate(g)
    ensures Values0To9(g) ==> Values0To9(r)
    ensures IsValid(r) <==> Solvable(Propagate(g))
  {
    if IsValid(g) {
      ValidIsFilled(g);
    }
    var p := RunPropagation(g);
    if IsValid(p) {
      r := p;
      SolutionWitness(p, p);
    } else {
      var found;
      found, r := TryCombinations(p);
      if found {
        ValidIsFilled(r);
      } else {
        PropagateStops(g);
        FailureKeepsStepless(p, r);
      }
    }
  }
}
