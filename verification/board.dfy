/**
 The 9×9 board of the solver and the three kinds of region on it: rows,
 columns and the nine 3×3 boxes ("fields"). The accessors are generic in the
 entry type, because the solver applies the same queries both to the grid of
 digits and to the table of candidate sets built from it.
 */
module Board {

  datatype Option<T> = None | Some(value: T)

  /** The reference set {1, ..., 9}: the values that count as a filled cell. */
  const Digits: set<int> := {1, 2, 3, 4, 5, 6, 7, 8, 9}

  type Table<T> = seq<seq<T>>

  /** A puzzle: 0 (or any other non-digit) marks an empty cell. */
  type Grid = Table<int>

  /** Nine rows of nine entries each. */
  predicate Square9<T>(t: Table<T>) {
    |t| == 9 && forall i :: 0 <= i < 9 ==> |t[i]| == 9
  }

  predicate InBounds(i: int, j: int) {
    0 <= i < 9 && 0 <= j < 9
  }

  /** The set of values occurring in a sequence. */
  function Elems(s: seq<int>): (e: set<int>) {
    set x | x in s
  }

  /** Cells (r, c) and (i, j) lie in the same 3×3 box. */
  predicate SameBox(r: int, c: int, i: int, j: int) {
    r / 3 == i / 3 && c / 3 == j / 3
  }

  /** Row of the k-th cell, in row-major order, of the box holding row i. */
  function BoxRow(i: int, k: int): int {
    (i / 3) * 3 + k / 3
  }

  /** Column of the k-th cell, in row-major order, of the box holding column j. */
  function BoxCol(j: int, k: int): int {
    (j / 3) * 3 + k % 3
  }

  /** Position of cell (i, j) within its own flattened box. */
  function SelfIndex(i: int, j: int): int {
    (i % 3) * 3 + j % 3
  }

  /** Row i: its entry c is the entry of cell (i, c). */
  function Row<T>(i: int, t: Table<T>): (row: seq<T>)
    requires 0 <= i < |t|
    ensures |row| == |t[i]| && forall c :: 0 <= c < |row| ==> row[c] == t[i][c]
  {
    t[i]
  }

  /** Column j: its entry r is the entry of cell (r, j). */
  function Column<T>(j: int, t: Table<T>): (c: seq<T>)
    requires Square9(t) && 0 <= j < 9
    ensures |c| == 9 && forall r :: 0 <= r < 9 ==> c[r] == t[r][j]
  {
    seq(|t|, r requires 0 <= r < |t| => t[r][j])
  }

  /** The table read column by column: row j of the result is column j. */
  function Transpose<T>(t: Table<T>): (tt: Table<T>)
    requires Square9(t)
    ensures Square9(tt)
    ensures forall i, j :: InBounds(i, j) ==> tt[j][i] == t[i][j]
  {
    seq(9, j requires 0 <= j < 9 => Column(j, t))
  }

  /** The rows of the transpose are the columns, and transposing twice gives the table back. */
  lemma TransposeRows<T>(t: Table<T>)
    requires Square9(t)
    ensures forall j :: 0 <= j < 9 ==> Row(j, Transpose(t)) == Column(j, t)
    ensures Transpose(Transpose(t)) == t
  {
    var tt := Transpose(t);
    forall j | 0 <= j < 9 ensures Row(j, tt) == Column(j, t) {
      assert forall r :: 0 <= r < 9 ==> Row(j, tt)[r] == Column(j, t)[r];
    }
    var t2 := Transpose(tt);
    forall i | 0 <= i < 9 ensures t2[i] == t[i] {
      assert forall c :: 0 <= c < 9 ==> t2[i][c] == tt[c][i] == t[i][c];
    }
  }

  /** The 3×3 sub-table of band bi (rows 3bi..3bi+2) and stack bj (columns 3bj..3bj+2). */
  function Block<T>(t: Table<T>, bi: int, bj: int): (b: Table<T>)
    requires Square9(t) && 0 <= bi < 3 && 0 <= bj < 3
    ensures |b| == 3 && forall a :: 0 <= a < 3 ==> |b[a]| == 3
    ensures forall a, c :: 0 <= a < 3 && 0 <= c < 3 ==> b[a][c] == t[bi * 3 + a][bj * 3 + c]
  {
    var band := t[bi * 3 .. (bi + 1) * 3];
    seq(3, a requires 0 <= a < 3 => band[a][bj * 3 .. (bj + 1) * 3])
  }

  /** The nine boxes, numbered band by band: box k is Block(t, k / 3, k % 3). */
  function Fields<T>(t: Table<T>): (fs: seq<Table<T>>)
    requires Square9(t)
    ensures |fs| == 9
    ensures forall k :: 0 <= k < 9 ==> |fs[k]| == 3 && forall a :: 0 <= a < 3 ==> |fs[k][a]| == 3
    ensures forall k, a, c :: 0 <= k < 9 && 0 <= a < 3 && 0 <= c < 3 ==> fs[k][a][c] == t[(k / 3) * 3 + a][(k % 3) * 3 + c]
  {
    seq(9, k requires 0 <= k < 9 => Block(t, k / 3, k % 3))
  }

  /** Concatenation of a list of rows. */
  function Flatten<T>(rows: seq<seq<T>>): (flat: seq<T>) {
    if |rows| == 0 then [] else rows[0] + Flatten(rows[1..])
  }

  lemma FlattenThree<T>(rows: seq<seq<T>>)
    requires |rows| == 3 && forall a :: 0 <= a < 3 ==> |rows[a]| == 3
    ensures |Flatten(rows)| == 9
    ensures forall k :: 0 <= k < 9 ==> Flatten(rows)[k] == rows[k / 3][k % 3]
  {
    assert Flatten(rows[2..]) == rows[2] + Flatten(rows[3..]);
    assert Flatten(rows[1..]) == rows[1] + Flatten(rows[2..]);
    assert Flatten(rows) == rows[0] + rows[1] + rows[2];
  }

  /**
   The box holding cell (i, j), flattened in row-major order. Its k-th entry is
   the entry of cell (BoxRow(i, k), BoxCol(j, k)), and position SelfIndex(i, j)
   holds the cell itself.
   */
  function Field<T>(i: int, j: int, t: Table<T>): (f: seq<T>)
    requires Square9(t) && InBounds(i, j)
    ensures |f| == 9
    ensures forall k :: 0 <= k < 9 ==> f[k] == t[BoxRow(i, k)][BoxCol(j, k)]
    ensures f[SelfIndex(i, j)] == t[i][j]
  {
    var bi, bj := i / 3, j / 3;
    FieldsAt(t, bi, bj);
    BlockEntries(t, bi, bj);
    SelfIndexInverse(i, j);
    Flatten(Fields(t)[bi * 3 + bj])
  }

  /** Box number bi * 3 + bj is the block of band bi and stack bj. */
  lemma FieldsAt<T>(t: Table<T>, bi: int, bj: int)
    requires Square9(t) && 0 <= bi < 3 && 0 <= bj < 3
    ensures 0 <= bi * 3 + bj < 9 && Fields(t)[bi * 3 + bj] == Block(t, bi, bj)
  {
    var n := bi * 3 + bj;
    assert n / 3 == bi && n % 3 == bj;
  }

  /** The flattened block lists its cells row by row. */
  lemma BlockEntries<T>(t: Table<T>, bi: int, bj: int)
    requires Square9(t) && 0 <= bi < 3 && 0 <= bj < 3
    ensures |Flatten(Block(t, bi, bj))| == 9
    ensures forall k :: 0 <= k < 9 ==> Flatten(Block(t, bi, bj))[k] == t[bi * 3 + k / 3][bj * 3 + k % 3]
  {
    var block := Block(t, bi, bj);
    FlattenThree(block);
    forall k | 0 <= k < 9 ensures Flatten(block)[k] == t[bi * 3 + k / 3][bj * 3 + k % 3] {
      assert Flatten(block)[k] == block[k / 3][k % 3];
    }
  }

  lemma SelfIndexInverse(r: int, c: int)
    requires InBounds(r, c)
    ensures 0 <= SelfIndex(r, c) < 9
    ensures BoxRow(r, SelfIndex(r, c)) == r && BoxCol(c, SelfIndex(r, c)) == c
  {
  }

  /** Every cell a flattened box lists lies in the box. */
  lemma BoxCellsInBox(i: int, j: int)
    requires InBounds(i, j)
    ensures forall k :: 0 <= k < 9 ==> InBounds(BoxRow(i, k), BoxCol(j, k)) && SameBox(BoxRow(i, k), BoxCol(j, k), i, j)
  {
  }

  /** Every cell of the box is listed, at position SelfIndex of that cell. */
  lemma BoxCellsCovered(i: int, j: int)
    requires InBounds(i, j)
    ensures forall r, c :: InBounds(r, c) && SameBox(r, c, i, j) ==>
      0 <= SelfIndex(r, c) < 9 && BoxRow(i, SelfIndex(r, c)) == r && BoxCol(j, SelfIndex(r, c)) == c
  {
    forall r, c | InBounds(r, c) && SameBox(r, c, i, j)
      ensures 0 <= SelfIndex(r, c) < 9 && BoxRow(i, SelfIndex(r, c)) == r && BoxCol(j, SelfIndex(r, c)) == c
    {
      SelfIndexInverse(r, c);
    }
  }

  /** The listing is in row-major order, so no cell is listed twice. */
  lemma BoxRowMajor(i: int, j: int)
    requires InBounds(i, j)
    ensures forall k1, k2 :: 0 <= k1 < k2 < 9 ==>
      BoxRow(i, k1) < BoxRow(i, k2) || (BoxRow(i, k1) == BoxRow(i, k2) && BoxCol(j, k1) < BoxCol(j, k2))
  {
  }

  /** The grid with cell (i, j) set to v. */
  function SetCell(g: Grid, i: int, j: int, v: int): (h: Grid)
    requires Square9(g) && InBounds(i, j)
    ensures Square9(h)
    ensures h[i][j] == v
    ensures forall r, c :: InBounds(r, c) && (r != i || c != j) ==> h[r][c] == g[r][c]
  {
    g[i := g[i][j := v]]
  }

  /** The cells that do not hold a digit 1..9. */
  function EmptyCells(g: Grid): (cells: set<(int, int)>)
    requires Square9(g)
  {
    set i, j | 0 <= i < 9 && 0 <= j < 9 && g[i][j] !in Digits :: (i, j)
  }

  function EmptyCount(g: Grid): nat
    requires Square9(g)
  {
    |EmptyCells(g)|
  }

  /** Every cell of g holding a digit holds the same digit in h. */
  ghost predicate KeepsGivens(g: Grid, h: Grid)
    requires Square9(g) && Square9(h)
  {
    forall i, j :: InBounds(i, j) && g[i][j] in Digits ==> h[i][j] == g[i][j]
  }

  /** The two grids hold the same digits in the same cells; other values may differ. */
  ghost predicate SameDigits(g: Grid, h: Grid)
    requires Square9(g) && Square9(h)
  {
    forall i, j :: InBounds(i, j) && (g[i][j] in Digits || h[i][j] in Digits) ==> g[i][j] == h[i][j]
  }

  /** Every value is 0 or a digit, the form parsing produces. */
  ghost predicate Values0To9(g: Grid)
    requires Square9(g)
  {
    forall i, j :: InBounds(i, j) ==> 0 <= g[i][j] <= 9
  }

  /**
   Filling an empty cell of g with a digit, in a grid h whose other cells are
   filled exactly where g's are, leaves exactly g's empty cells but that one.
   */
  lemma FillCell(g: Grid, h: Grid, i: int, j: int, v: int)
    requires Square9(g) && Square9(h) && InBounds(i, j) && g[i][j] !in Digits && v in Digits
    requires forall r, c :: InBounds(r, c) && (r != i || c != j) ==> (h[r][c] in Digits <==> g[r][c] in Digits)
    ensures EmptyCells(SetCell(h, i, j, v)) == EmptyCells(g) - {(i, j)}
    ensures EmptyCount(SetCell(h, i, j, v)) < EmptyCount(g)
  {
    assert (i, j) in EmptyCells(g);
    assert EmptyCells(SetCell(h, i, j, v)) < EmptyCells(g);
  }

  /** Tables that agree on every cell are equal. */
  lemma TablesEqual<T>(g: Table<T>, h: Table<T>)
    requires Square9(g) && Square9(h)
    requires forall i, j :: InBounds(i, j) ==> g[i][j] == h[i][j]
    ensures g == h
  {
    forall i | 0 <= i < 9 ensures g[i] == h[i] {
      assert forall j :: 0 <= j < 9 ==> g[i][j] == h[i][j];
    }
  }
}
