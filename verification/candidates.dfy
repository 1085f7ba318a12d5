/**
 Candidate queries: the digits still legal for a cell, and the table of those
 sets for the whole grid, computed once per propagation pass.
 */
module Candidates {
  import opened Board

  /** Digit d occurs nowhere in row i. */
  ghost predicate RowLacks(g: Grid, i: int, d: int)
    requires Square9(g) && 0 <= i < 9
  {
    forall c :: 0 <= c < 9 ==> g[i][c] != d
  }

  /** Digit d occurs nowhere in column j. */
  ghost predicate ColumnLacks(g: Grid, j: int, d: int)
    requires Square9(g) && 0 <= j < 9
  {
    forall r :: 0 <= r < 9 ==> g[r][j] != d
  }

  /** Digit d occurs nowhere in the box of cell (i, j). */
  ghost predicate BoxLacks(g: Grid, i: int, j: int, d: int)
    requires Square9(g)
  {
    forall r, c :: InBounds(r, c) && SameBox(r, c, i, j) ==> g[r][c] != d
  }

  /** Every entry of a candidate table is a set of digits. */
  ghost predicate CandidateTable(poss: Table<set<int>>)
    requires Square9(poss)
  {
    forall i, j :: InBounds(i, j) ==> poss[i][j] <= Digits
  }

  /**
   The digits legal at (i, j): {1..9} minus everything in the cell's box, row
   and column. A digit is legal exactly when none of the three regions holds it.
   */
  function PossibleValues(i: int, j: int, g: Grid): (r: set<int>)
    requires Square9(g) && InBounds(i, j)
    ensures r <= Digits
    ensures forall d :: d in r <==> d in Digits && RowLacks(g, i, d) && ColumnLacks(g, j, d) && BoxLacks(g, i, j, d)
  {
    RowElems(g, i);
    ColumnElems(g, j);
    FieldElems(g, i, j);
    var ref := Digits - Elems(Field(i, j, g));
    var ref := ref - Elems(Row(i, g));
    ref - Elems(Column(j, g))
  }

  lemma RowElems(g: Grid, i: int)
    requires Square9(g) && 0 <= i < 9
    ensures forall d :: d in Elems(Row(i, g)) <==> !RowLacks(g, i, d)
  {
  }

  lemma ColumnElems(g: Grid, j: int)
    requires Square9(g) && 0 <= j < 9
    ensures forall d :: d in Elems(Column(j, g)) <==> !ColumnLacks(g, j, d)
  {
  }

  lemma FieldElems(g: Grid, i: int, j: int)
    requires Square9(g) && InBounds(i, j)
    ensures forall d :: d in Elems(Field(i, j, g)) <==> !BoxLacks(g, i, j, d)
  {
    var box := Field(i, j, g);
    BoxCellsInBox(i, j);
    BoxCellsCovered(i, j);
    forall d
      ensures d in Elems(box) <==> !BoxLacks(g, i, j, d)
    {
      if d in Elems(box) {
        var k :| 0 <= k < 9 && box[k] == d;
        assert g[BoxRow(i, k)][BoxCol(j, k)] == d;
      }
      if !BoxLacks(g, i, j, d) {
        var r, c :| InBounds(r, c) && SameBox(r, c, i, j) && g[r][c] == d;
        assert box[SelfIndex(r, c)] == d;
      }
    }
  }

  /**
   The candidate table: cells already holding a digit get the empty set, every
   other cell gets its legal digits.
   */
  function Possibilities(g: Grid): (poss: Table<set<int>>)
    requires Square9(g)
    ensures Square9(poss) && CandidateTable(poss)
    ensures forall i, j, d :: InBounds(i, j) ==>
      (d in poss[i][j] <==> g[i][j] !in Digits && d in Digits && RowLacks(g, i, d) && ColumnLacks(g, j, d) && BoxLacks(g, i, j, d))
    ensures forall i, j :: InBounds(i, j) && g[i][j] !in Digits ==> poss[i][j] == PossibleValues(i, j, g)
  {
    seq(9, i requires 0 <= i < 9 =>
      seq(9, j requires 0 <= j < 9 =>
        if g[i][j] !in Digits then PossibleValues(i, j, g) else {}))
  }

  /** A candidate listed in the table belongs to an empty cell and is legal there. */
  lemma CandidateOfEmpty(g: Grid, i: int, j: int, d: int)
    requires Square9(g) && InBounds(i, j)
    ensures d in Possibilities(g)[i][j] ==> g[i][j] !in Digits && d in PossibleValues(i, j, g)
  {
  }

  /** Whether a region lacks a digit depends only on the cells holding digits. */
  lemma LacksAgree(g: Grid, h: Grid, i: int, j: int, d: int)
    requires Square9(g) && Square9(h) && SameDigits(g, h) && InBounds(i, j) && d in Digits
    ensures RowLacks(g, i, d) == RowLacks(h, i, d)
    ensures ColumnLacks(g, j, d) == ColumnLacks(h, j, d)
    ensures BoxLacks(g, i, j, d) == BoxLacks(h, i, j, d)
  {
  }

  /** Grids with the same digits in the same cells get the same candidate table. */
  lemma SameDigitsPossibilities(g: Grid, h: Grid)
    requires Square9(g) && Square9(h) && SameDigits(g, h)
    ensures Possibilities(g) == Possibilities(h)
  {
    var pg, ph := Possibilities(g), Possibilities(h);
    forall i, j | InBounds(i, j) ensures pg[i][j] == ph[i][j] {
      forall d ensures d in pg[i][j] <==> d in ph[i][j] {
        if d in Digits {
          LacksAgree(g, h, i, j, d);
        }
      }
    }
    TablesEqual(pg, ph);
  }
}
