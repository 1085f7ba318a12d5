/**
 The 81-character puzzle format: characters are grouped into rows of nine,
 '1'..'9' become their digit and every other character an empty cell (0).
 Also the cell-by-cell comparison of two grids.
 */
module Parsing {
  import opened Board

  /** Consecutive groups of nine characters; a trailing partial group is dropped. */
  function ConvertStringToArray(s: string): (rows: seq<seq<char>>)
    ensures |rows| == |s| / 9
    ensures forall k :: 0 <= k < |rows| ==> rows[k] == s[9 * k .. 9 * k + 9]
    decreases |s|
  {
    if |s| < 9 then []
    else
      var rest := ConvertStringToArray(s[9..]);
      var rows := [s[..9]] + rest;
      assert (|s| - 9) / 9 + 1 == |s| / 9;
      forall k | 1 <= k < |rows| ensures rows[k] == s[9 * k .. 9 * k + 9] {
        var a := 9 * (k - 1);
        assert a + 9 == 9 * k && a + 18 == 9 * k + 9;
        assert rows[k] == rest[k - 1] == s[9..][a .. a + 9];
      }
      rows
  }

  /** The character of a value 0..9. */
  function DigitChar(d: int): (c: char)
    requires 0 <= d <= 9
  {
    ('0' as int + d) as char
  }

  /** The cell value of one character. */
  function CellValue(c: char): (v: int)
    ensures 0 <= v <= 9
    ensures v != 0 <==> '1' <= c <= '9'
    ensures v != 0 ==> DigitChar(v) == c
  {
    if '1' <= c <= '9' then c as int - '0' as int else 0
  }

  /**
   Every character of every row replaced by a value 0..9, shape unchanged:
   '1'..'9' by the digit they show, every other character by 0.
   */
  function ParseSudoku(rows: seq<seq<char>>): (g: seq<seq<int>>)
    ensures |g| == |rows| && forall i :: 0 <= i < |rows| ==> |g[i]| == |rows[i]|
    ensures forall i, j :: 0 <= i < |rows| && 0 <= j < |rows[i]| ==>
      && 0 <= g[i][j] <= 9
      && (g[i][j] != 0 <==> '1' <= rows[i][j] <= '9')
      && (g[i][j] != 0 ==> DigitChar(g[i][j]) == rows[i][j])
  {
    seq(|rows|, i requires 0 <= i < |rows| => seq(|rows[i]|, j requires 0 <= j < |rows[i]| => CellValue(rows[i][j])))
  }

  /** A puzzle string read into a grid. */
  function Load(s: string): (g: seq<seq<int>>) {
    ParseSudoku(ConvertStringToArray(s))
  }

  /** The 81-character form of a grid: digits as themselves, anything else as '.'. */
  function Compress(g: Grid): (s: string)
    requires Square9(g)
    ensures |s| == 81
  {
    seq(81, k requires 0 <= k < 81 => if g[k / 9][k % 9] in Digits then DigitChar(g[k / 9][k % 9]) else '.')
  }

  /**
   Loading gives a 9×9 grid exactly when the string has 81 to 89 characters,
   and then every cell holds 0..9: the value of character 9i + j.
   */
  lemma LoadShape(s: string)
    ensures Square9(Load(s)) <==> 81 <= |s| < 90
    ensures 81 <= |s| < 90 ==> Values0To9(Load(s))
    ensures 81 <= |s| < 90 ==> forall i, j :: InBounds(i, j) ==> Load(s)[i][j] == CellValue(s[9 * i + j])
  {
    var rows := ConvertStringToArray(s);
    if 81 <= |s| < 90 {
      forall i, j | InBounds(i, j) ensures Load(s)[i][j] == CellValue(s[9 * i + j]) {
        assert rows[i] == s[9 * i .. 9 * i + 9];
        assert rows[i][j] == s[9 * i + j];
      }
    }
  }

  /** Compressing a grid of 0..9 values and loading it back gives the same grid. */
  lemma LoadCompress(g: Grid)
    requires Square9(g) && Values0To9(g)
    ensures Load(Compress(g)) == g
  {
    var s := Compress(g);
    LoadShape(s);
    forall i, j | InBounds(i, j) ensures Load(s)[i][j] == g[i][j] {
      CompressAt(g, i, j);
    }
    TablesEqual(Load(s), g);
  }

  /** Character 9i + j of the compressed form reads back as cell (i, j) of a 0..9 grid. */
  lemma CompressAt(g: Grid, i: int, j: int)
    requires Square9(g) && Values0To9(g) && InBounds(i, j)
    ensures CellValue(Compress(g)[9 * i + j]) == g[i][j]
  {
    var k := 9 * i + j;
    assert k / 9 == i && k % 9 == j;
    var c := Compress(g)[k];
    if g[i][j] in Digits {
      assert c == DigitChar(g[i][j]);
    } else {
      assert c == '.';
    }
  }

  /** Loading, compressing and loading again gives the grid loaded first. */
  lemma LoadIsStable(s: string)
    requires |s| == 81
    ensures Square9(Load(s)) && Load(Compress(Load(s))) == Load(s)
  {
    LoadShape(s);
    LoadCompress(Load(s));
  }

  /** At least nine rows of at least nine entries: the cells Equality reads exist. */
  ghost predicate Covers9(t: seq<seq<int>>) {
    |t| >= 9 && forall i :: 0 <= i < 9 ==> |t[i]| >= 9
  }

  /**
   Compares the cells (i, j), 0 <= i, j < 9, of two grids in row-major order,
   stopping at the first difference; on 9×9 grids this is equality.
   */
  method Equality(s1: seq<seq<int>>, s2: seq<seq<int>>) returns (same: bool)
    requires Covers9(s1) && Covers9(s2)
    ensures same <==> forall i, j :: InBounds(i, j) ==> s1[i][j] == s2[i][j]
    ensures Square9(s1) && Square9(s2) ==> (same <==> s1 == s2)
  {
    var i := 0;
    while i < 9
      invariant 0 <= i <= 9
      invariant forall a, b :: 0 <= a < i && 0 <= b < 9 ==> s1[a][b] == s2[a][b]
    {
      var j := 0;
      while j < 9
        invariant 0 <= j <= 9
        invariant forall b :: 0 <= b < j ==> s1[i][b] == s2[i][b]
      {
        if s1[i][j] != s2[i][j] {
          return false;
        }
        j := j + 1;
      }
      i := i + 1;
    }
    if Square9(s1) && Square9(s2) {
      TablesEqual(s1, s2);
    }
    return true;
  }
}
