/**
 The validator: a grid is a solution when every row, every column and every
 box, taken as a set, is {1..9}.
 */
module Validation {
  import opened Board

  /** Every row, taken as a set, is {1..9}. */
  predicate RowsComplete(g: Grid)
    requires Square9(g)
  {
    forall i :: 0 <= i < 9 ==> Elems(Row(i, g)) == Digits
  }

  /** Every row of the transposed grid, that is every column, taken as a set, is {1..9}. */
  predicate ColumnsComplete(g: Grid)
    requires Square9(g)
  {
    forall j :: 0 <= j < 9 ==> Elems(Row(j, Transpose(g))) == Digits
  }

  /** Every flattened box, taken as a set, is {1..9}. */
  predicate BoxesComplete(g: Grid)
    requires Square9(g)
  {
    forall k :: 0 <= k < 9 ==> Elems(Flatten(Fields(g)[k])) == Digits
  }

  /**
   Rows first, then the rows of the transposed grid (the columns), then the
   nine boxes; a region whose set of values differs from {1..9} makes the grid
   invalid. In particular a valid grid holds a digit in every cell.
   */
  function IsValid(g: Grid): (valid: bool)
    requires Square9(g)
    ensures valid ==> AllFilled(g)
  {
    RowsIff(g);
    RowsComplete(g) && ColumnsComplete(g) && BoxesComplete(g)
  }

  /** No value occurs twice in s. */
  ghost predicate Distinct(s: seq<int>) {
    forall a, b :: 0 <= a < b < |s| ==> s[a] != s[b]
  }

  /** Every value of s is a digit. */
  ghost predicate AllDigits(s: seq<int>) {
    forall a :: 0 <= a < |s| ==> s[a] in Digits
  }

  /** Every cell holds a digit. */
  ghost predicate AllFilled(g: Grid)
    requires Square9(g)
  {
    forall i, j :: InBounds(i, j) ==> g[i][j] in Digits
  }

  /** No two cells of a row hold the same value. */
  ghost predicate RowsDistinct(g: Grid)
    requires Square9(g)
  {
    forall i, c1, c2 :: 0 <= i < 9 && 0 <= c1 < c2 < 9 ==> g[i][c1] != g[i][c2]
  }

  /** No two cells of a column hold the same value. */
  ghost predicate ColumnsDistinct(g: Grid)
    requires Square9(g)
  {
    forall j, r1, r2 :: 0 <= j < 9 && 0 <= r1 < r2 < 9 ==> g[r1][j] != g[r2][j]
  }

  /**
   The Sudoku rule stated cell by cell: every cell holds a digit, and no two
   distinct cells sharing a row, a column or a box hold the same digit.
   */
  ghost predicate Solved(g: Grid)
    requires Square9(g)
  {
    AllFilled(g) && RowsDistinct(g) && ColumnsDistinct(g) && BoxesDistinct(g)
  }

  /** A sequence has at most as many distinct values as entries, and exactly as many when no value repeats. */
  lemma {:induction false} DistinctCard(s: seq<int>)
    ensures |Elems(s)| <= |s|
    ensures Distinct(s) <==> |Elems(s)| == |s|
    decreases |s|
  {
    if |s| == 0 {
      assert Elems(s) == {};
    } else {
      var t := s[1..];
      DistinctCard(t);
      DistinctCons(s);
      assert Elems(s) == {s[0]} + Elems(t) by {
        assert s == [s[0]] + t;
      }
      if s[0] in Elems(t) {
        assert Elems(s) == Elems(t);
      }
    }
  }

  /** No value repeats in s exactly when its head is not in its tail and none repeats in the tail. */
  lemma DistinctCons(s: seq<int>)
    requires |s| > 0
    ensures Distinct(s) <==> s[0] !in Elems(s[1..]) && Distinct(s[1..])
  {
    var t := s[1..];
    if Distinct(s) {
      forall a, b | 0 <= a < b < |t| ensures t[a] != t[b] {
        assert t[a] == s[a + 1] && t[b] == s[b + 1];
      }
      forall a | 0 <= a < |t| ensures t[a] != s[0] {
        assert t[a] == s[a + 1];
      }
    }
    if s[0] !in Elems(t) && Distinct(t) {
      forall a, b | 0 <= a < b < |s| ensures s[a] != s[b] {
        assert s[b] == t[b - 1];
        if a > 0 {
          assert s[a] == t[a - 1];
        }
      }
    }
  }

  /** A 9-entry sequence has value set {1..9} exactly when it lists the nine digits once each. */
  lemma PermutationOfDigits(s: seq<int>)
    requires |s| == 9
    ensures Elems(s) == Digits <==> AllDigits(s) && Distinct(s)
  {
    DistinctCard(s);
    assert |Digits| == 9;
    if AllDigits(s) && Distinct(s) {
      assert Elems(s) <= Digits;
      SubsetSameCard(Elems(s), Digits);
    }
  }

  lemma SubsetSameCard(a: set<int>, b: set<int>)
    requires a <= b && |a| == |b|
    ensures a == b
  {
    assert b == a + (b - a);
    assert |b - a| == 0;
  }

  /** The k-th box listed by IsValid is the flattened box of its top-left cell. */
  lemma BoxesAreFields(g: Grid, k: int)
    requires Square9(g) && 0 <= k < 9
    ensures InBounds((k / 3) * 3, (k % 3) * 3)
    ensures Flatten(Fields(g)[k]) == Field((k / 3) * 3, (k % 3) * 3, g)
  {
    var i, j := (k / 3) * 3, (k % 3) * 3;
    assert i / 3 == k / 3 && j / 3 == k % 3;
    assert (i / 3) * 3 + j / 3 == k;
  }

  /** The Sudoku rule for boxes, stated cell by cell. */
  ghost predicate BoxesDistinct(g: Grid)
    requires Square9(g)
  {
    forall r1, c1, r2, c2 :: InBounds(r1, c1) && InBounds(r2, c2) && SameBox(r1, c1, r2, c2) && (r1 != r2 || c1 != c2)
      ==> g[r1][c1] != g[r2][c2]
  }

  lemma DistinctBoxesCells(g: Grid)
    requires Square9(g)
    requires forall k :: 0 <= k < 9 ==> Distinct(Flatten(Fields(g)[k]))
    ensures BoxesDistinct(g)
  {
    forall r1, c1, r2, c2 | InBounds(r1, c1) && InBounds(r2, c2) && SameBox(r1, c1, r2, c2) && (r1 != r2 || c1 != c2)
      ensures g[r1][c1] != g[r2][c2]
    {
      FieldIsBox(g, r1, c1);
      FieldPairDistinct(g, r1, c1, r2, c2);
    }
  }

  lemma FieldIsBox(g: Grid, i: int, j: int)
    requires Square9(g) && InBounds(i, j)
    ensures 0 <= (i / 3) * 3 + j / 3 < 9
    ensures Field(i, j, g) == Flatten(Fields(g)[(i / 3) * 3 + j / 3])
  {
  }

  lemma FieldPairDistinct(g: Grid, r1: int, c1: int, r2: int, c2: int)
    requires Square9(g) && InBounds(r1, c1) && InBounds(r2, c2) && SameBox(r1, c1, r2, c2) && (r1 != r2 || c1 != c2)
    requires Distinct(Field(r1, c1, g))
    ensures g[r1][c1] != g[r2][c2]
  {
    var b := Field(r1, c1, g);
    BoxCellsCovered(r1, c1);
    var a1, a2 := SelfIndex(r1, c1), SelfIndex(r2, c2);
    assert b[a1] == g[r1][c1] && b[a2] == g[r2][c2];
    assert a1 != a2;
  }

  lemma CellsDistinctBoxes(g: Grid)
    requires Square9(g) && BoxesDistinct(g)
    ensures forall k :: 0 <= k < 9 ==> Distinct(Flatten(Fields(g)[k]))
  {
    forall k | 0 <= k < 9 ensures Distinct(Flatten(Fields(g)[k])) {
      BoxesAreFields(g, k);
      var i, j := (k / 3) * 3, (k % 3) * 3;
      var b := Field(i, j, g);
      BoxCellsInBox(i, j);
      BoxRowMajor(i, j);
      forall a1, a2 | 0 <= a1 < a2 < 9 ensures b[a1] != b[a2] {
        assert SameBox(BoxRow(i, a1), BoxCol(j, a1), BoxRow(i, a2), BoxCol(j, a2));
      }
    }
  }

  lemma RowsIff(g: Grid)
    requires Square9(g)
    ensures RowsComplete(g) <==> AllFilled(g) && RowsDistinct(g)
  {
    forall i | 0 <= i < 9
      ensures Elems(Row(i, g)) == Digits <==> AllDigits(Row(i, g)) && Distinct(Row(i, g))
    {
      PermutationOfDigits(Row(i, g));
    }
    if RowsComplete(g) {
      forall i, j | InBounds(i, j) ensures g[i][j] in Digits {
        assert Row(i, g)[j] == g[i][j];
      }
      forall i, c1, c2 | 0 <= i < 9 && 0 <= c1 < c2 < 9 ensures g[i][c1] != g[i][c2] {
        assert Distinct(Row(i, g));
      }
    }
  }

  lemma ColumnsIff(g: Grid)
    requires Square9(g)
    ensures ColumnsComplete(g) <==> AllFilled(g) && ColumnsDistinct(g)
  {
    TransposeRows(g);
    forall j | 0 <= j < 9
      ensures Elems(Column(j, g)) == Digits <==> AllDigits(Column(j, g)) && Distinct(Column(j, g))
    {
      PermutationOfDigits(Column(j, g));
    }
    if ColumnsComplete(g) {
      forall i, j | InBounds(i, j) ensures g[i][j] in Digits {
        assert Column(j, g)[i] == g[i][j];
      }
      forall j, r1, r2 | 0 <= j < 9 && 0 <= r1 < r2 < 9 ensures g[r1][j] != g[r2][j] {
        assert Distinct(Column(j, g));
      }
    }
  }

  lemma BoxesIff(g: Grid)
    requires Square9(g)
    ensures BoxesComplete(g) <==> AllFilled(g) && BoxesDistinct(g)
  {
    forall k | 0 <= k < 9
      ensures Elems(Flatten(Fields(g)[k])) == Digits <==> AllDigits(Flatten(Fields(g)[k])) && Distinct(Flatten(Fields(g)[k]))
    {
      BoxesAreFields(g, k);
      PermutationOfDigits(Flatten(Fields(g)[k]));
    }
    if BoxesComplete(g) {
      forall i, j | InBounds(i, j) ensures g[i][j] in Digits {
        FieldIsBox(g, i, j);
        assert Field(i, j, g)[SelfIndex(i, j)] == g[i][j];
      }
      DistinctBoxesCells(g);
    }
    if AllFilled(g) && BoxesDistinct(g) {
      CellsDistinctBoxes(g);
      forall k | 0 <= k < 9 ensures AllDigits(Flatten(Fields(g)[k])) {
        BoxesAreFields(g, k);
        BoxCellsInBox((k / 3) * 3, (k % 3) * 3);
      }
    }
  }

  /**
   The validator agrees with the cell-by-cell Sudoku rule: it accepts a grid
   exactly when every row, column and box lists the nine digits once each.
   */
  lemma ValidIffSolved(g: Grid)
    requires Square9(g)
    ensures IsValid(g) <==> Solved(g)
  {
    RowsIff(g);
    ColumnsIff(g);
    BoxesIff(g);
  }

  /** A grid with a cell not holding 1..9 (an empty cell, say) is never valid. */
  lemma IncompleteIsInvalid(g: Grid, i: int, j: int)
    requires Square9(g) && InBounds(i, j) && g[i][j] !in Digits
    ensures !IsValid(g)
  {
    assert g[i][j] in Elems(Row(i, g));
  }
}
