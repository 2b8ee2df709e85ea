/** `format_grid`, nested in `display_grids`: renders a grid of digits as
    text lines, cells in groups of three between `|` bars and a dash line
    after every third row but the last band. */
module GridDisplay {

  /** A cell value the renderer can print in one column. */
  predicate IsDigit(n: int) { 0 <= n <= 9 }

  /** Every cell of every row is a digit. */
  predicate DigitCells(grid: seq<seq<int>>) {
    forall i, j :: 0 <= i < |grid| && 0 <= j < |grid[i]| ==> IsDigit(grid[i][j])
  }

  /** The character written for a cell: `_` for an empty cell (0), the
      digit otherwise. */
  function Glyph(n: int): (c: char)
    requires IsDigit(n)
    ensures (c == '_') <==> (n == 0)
    ensures n != 0 ==> '1' <= c <= '9' && c as int - '0' as int == n
  {
    if n == 0 then '_' else ('0' as int + n) as char
  }

  /** The cells of a row one after another, each as its glyph with a space
      on either side. */
  function Cells(row: seq<int>): (r: string)
    requires forall j :: 0 <= j < |row| ==> IsDigit(row[j])
    ensures |r| == 3 * |row|
    ensures forall k :: 0 <= k < |row| ==>
      r[3 * k] == ' ' && r[3 * k + 1] == Glyph(row[k]) && r[3 * k + 2] == ' '
  {
    if row == [] then []
    else
      var rest := Cells(row[1..]);
      CellsCons(row, rest);
      [' ', Glyph(row[0]), ' '] + rest
  }

  /** Putting the first cell's three columns before the columns of the other
      cells keeps every cell at three times its index. */
  lemma CellsCons(row: seq<int>, rest: string)
    requires row != [] && forall j :: 0 <= j < |row| ==> IsDigit(row[j])
    requires |rest| == 3 * (|row| - 1)
    requires forall k :: 0 <= k < |row| - 1 ==>
      rest[3 * k] == ' ' && rest[3 * k + 1] == Glyph(row[1..][k]) && rest[3 * k + 2] == ' '
    ensures var r := [' ', Glyph(row[0]), ' '] + rest;
      forall k :: 0 <= k < |row| ==>
        r[3 * k] == ' ' && r[3 * k + 1] == Glyph(row[k]) && r[3 * k + 2] == ' '
  {
    var r := [' ', Glyph(row[0]), ' '] + rest;
    forall k | 0 <= k < |row|
      ensures r[3 * k] == ' ' && r[3 * k + 1] == Glyph(row[k]) && r[3 * k + 2] == ' '
    {
      if k > 0 {
        var m := 3 * (k - 1);
        assert row[k] == row[1..][k - 1];
        assert r[3 * k] == rest[m] && r[3 * k + 1] == rest[m + 1] && r[3 * k + 2] == rest[m + 2];
      }
    }
  }

  /** Python slicing `row[lo:hi]` for `0 <= lo <= hi`: both bounds are
      clamped to the length. */
  function Slice(row: seq<int>, lo: nat, hi: nat): (r: seq<int>)
    requires lo <= hi
    ensures |r| <= hi - lo
  {
    var a := if lo < |row| then lo else |row|;
    var b := if hi < |row| then hi else |row|;
    row[a..b]
  }

  /** The text of one row: the cells in three groups (cells 0-2, 3-5 and
      6-8) with a bar before, between and after the groups. A row shorter
      than nine cells gives shorter or empty groups; cells past the ninth are
      not shown. */
  function RowLine(row: seq<int>): (line: string)
    requires forall j :: 0 <= j < |row| ==> IsDigit(row[j])
    ensures |line| == 4 + 3 * (if |row| < 9 then |row| else 9)
  {
    "|" + Cells(Slice(row, 0, 3)) + "|" + Cells(Slice(row, 3, 6))
      + "|" + Cells(Slice(row, 6, 9)) + "|"
  }

  /** A line of `n` dashes. */
  function Dashes(n: nat): (r: string)
    ensures |r| == n && forall k :: 0 <= k < n ==> r[k] == '-'
  {
    seq(n, _ => '-')
  }

  /** Column of cell `j` in a nine-cell row line: a bar and one space
      ahead of the first cell, three columns per cell, one more column for
      each bar between groups. */
  function CellColumn(j: nat): nat {
    2 + 10 * (j / 3) + 3 * (j % 3)
  }

  /** Where the three groups of a nine-cell row end up between the bars. */
  lemma BarredGroups(a: string, b: string, c: string)
    requires |a| == 9 && |b| == 9 && |c| == 9
    ensures var line := "|" + a + "|" + b + "|" + c + "|";
      && |line| == 31
      && line[0] == '|' && line[10] == '|' && line[20] == '|' && line[30] == '|'
      && forall m :: 0 <= m < 9 ==>
           line[1 + m] == a[m] && line[11 + m] == b[m] && line[21 + m] == c[m]
  {
  }

  /** For a nine-cell row the groups are plain slices. */
  lemma RowLineGroups(row: seq<int>)
    requires |row| == 9 && forall j :: 0 <= j < 9 ==> IsDigit(row[j])
    ensures RowLine(row)
      == "|" + Cells(row[0..3]) + "|" + Cells(row[3..6]) + "|" + Cells(row[6..9]) + "|"
  {
    assert Slice(row, 0, 3) == row[0..3] && Slice(row, 3, 6) == row[3..6] && Slice(row, 6, 9) == row[6..9];
  }

  /** A full row line: 31 columns, bars at 0, 10, 20 and 30, and cell `j`
      at `CellColumn(j)` with a space on each side. */
  lemma RowLineColumns(row: seq<int>)
    requires |row| == 9 && forall j :: 0 <= j < 9 ==> IsDigit(row[j])
    ensures var line := RowLine(row);
      && |line| == 31
      && line[0] == '|' && line[10] == '|' && line[20] == '|' && line[30] == '|'
      && forall j :: 0 <= j < 9 ==>
           line[CellColumn(j)] == Glyph(row[j])
           && line[CellColumn(j) - 1] == ' ' && line[CellColumn(j) + 1] == ' '
  {
    var a, b, c := Cells(row[0..3]), Cells(row[3..6]), Cells(row[6..9]);
    forall m | 0 <= m < 3
      ensures GroupShows(a, row, 0, m) && GroupShows(b, row, 3, m) && GroupShows(c, row, 6, m)
    {
      CellOfGroup(row, 0, m);
      CellOfGroup(row, 3, m);
      CellOfGroup(row, 6, m);
    }
    RowLineGroups(row);
    BarredGroups(a, b, c);
    GroupedColumns(row, a, b, c, RowLine(row));
  }

  /** A line holding the three group texts at columns 1, 11 and 21 shows
      cell `j` at `CellColumn(j)`. */
  lemma GroupedColumns(row: seq<int>, a: string, b: string, c: string, line: string)
    requires |row| == 9 && forall j :: 0 <= j < 9 ==> IsDigit(row[j])
    requires |a| == 9 && |b| == 9 && |c| == 9 && |line| == 31
    requires forall m :: 0 <= m < 3 ==>
      GroupShows(a, row, 0, m) && GroupShows(b, row, 3, m) && GroupShows(c, row, 6, m)
    requires forall k :: 0 <= k < 9 ==>
      line[1 + k] == a[k] && line[11 + k] == b[k] && line[21 + k] == c[k]
    ensures forall j :: 0 <= j < 9 ==>
      line[CellColumn(j)] == Glyph(row[j])
      && line[CellColumn(j) - 1] == ' ' && line[CellColumn(j) + 1] == ' '
  {
    forall j | 0 <= j < 9
      ensures line[CellColumn(j)] == Glyph(row[j])
      ensures line[CellColumn(j) - 1] == ' ' && line[CellColumn(j) + 1] == ' '
    {
      var m := j % 3;
      var k := 3 * m + 1;
      if j < 3 {
        assert GroupShows(a, row, 0, m) && CellColumn(j) == 1 + k;
      } else if j < 6 {
        assert GroupShows(b, row, 3, m) && CellColumn(j) == 11 + k;
      } else {
        assert GroupShows(c, row, 6, m) && CellColumn(j) == 21 + k;
      }
    }
  }

  /** Group text `g` shows cell `lo + m` of `row` as its `m`-th cell. */
  predicate GroupShows(g: string, row: seq<int>, lo: nat, m: nat)
    requires lo + m < |row| && IsDigit(row[lo + m])
  {
    3 * m + 2 < |g| && g[3 * m] == ' ' && g[3 * m + 1] == Glyph(row[lo + m]) && g[3 * m + 2] == ' '
  }

  /** Cell `m` of the group starting at `lo`. */
  lemma CellOfGroup(row: seq<int>, lo: nat, m: nat)
    requires lo + 3 <= |row| && m < 3 && forall j :: 0 <= j < |row| ==> IsDigit(row[j])
    ensures GroupShows(Cells(row[lo..lo + 3]), row, lo, m)
  {
    assert row[lo..lo + 3][m] == row[lo + m];
  }

  /** The line of every row, in order. */
  function RowLines(grid: seq<seq<int>>): (rows: seq<string>)
    requires DigitCells(grid)
    ensures |rows| == |grid|
    ensures forall i :: 0 <= i < |grid| ==> rows[i] == RowLine(grid[i])
  {
    seq(|grid|, i requires 0 <= i < |grid| => RowLine(grid[i]))
  }

  /** Number of lines written for the first `n` rows; also the index of the
      line of row `n`. A dash line follows rows 2 and 5 only. */
  function LinesFor(n: nat): nat {
    n + (if n >= 3 then 1 else 0) + (if n >= 6 then 1 else 0)
  }

  /** The lines `format_grid` builds from the row lines, one row at a time:
      the last row line is appended to the lines of the rows before it,
      followed by a dash line as long as the first line when that row is
      row 2 or row 5. */
  function Layout(rows: seq<string>): (lines: seq<string>)
    decreases |rows|
  {
    if rows == [] then []
    else
      var i := |rows| - 1;
      var shown := Layout(rows[..i]) + [rows[i]];
      if i % 3 == 2 && i < 8 then shown + [Dashes(|shown[0]|)] else shown
  }

  /** Where the lines go: row line `i` at `LinesFor(i)`, and dash lines as
      long as the first line at indices 3 and 7 once rows 2 and 5 exist. */
  ghost predicate IsLayout(rows: seq<string>, lines: seq<string>) {
    && |lines| == LinesFor(|rows|)
    && (forall i :: 0 <= i < |rows| ==> lines[LinesFor(i)] == rows[i])
    && (|rows| >= 3 ==> lines[3] == Dashes(|lines[0]|))
    && (|rows| >= 6 ==> lines[7] == Dashes(|lines[0]|))
  }

  /** `Layout` puts every line where `IsLayout` says. */
  lemma {:induction false} LayoutPlacesLines(rows: seq<string>)
    ensures IsLayout(rows, Layout(rows))
    decreases |rows|
  {
    if rows != [] {
      var i := |rows| - 1;
      var p := rows[..i];
      assert forall k :: 0 <= k < i ==> p[k] == rows[k];
      LayoutPlacesLines(p);
    }
  }

  /** The placement fixes every line: two outputs with it are equal. */
  lemma LayoutDetermined(rows: seq<string>, a: seq<string>, b: seq<string>)
    requires IsLayout(rows, a) && IsLayout(rows, b)
    ensures a == b
  {
    forall j | 0 <= j < |a|
      ensures a[j] == b[j]
    {
      if j < 3 {
        assert LinesFor(j) == j;
      } else if j == 3 || j == 7 {
        assert LinesFor(0) == 0;
      } else if j < 7 {
        assert LinesFor(j - 1) == j;
      } else {
        assert LinesFor(j - 2) == j;
      }
    }
  }

  /** Index `l` of a layout of `n` rows is a dash line (3 or 7) or the line
      of the row `RowAt(l)`. */
  function RowAt(l: nat): nat {
    if l < 3 then l else if l < 7 then l - 1 else l - 2
  }

  lemma RowAtPlaces(n: nat, l: nat)
    requires l < LinesFor(n) && l != 3 && l != 7
    ensures RowAt(l) < n && LinesFor(RowAt(l)) == l
  {
  }

  /** When every row line has width `w`, so does every line. */
  lemma LayoutWidths(rows: seq<string>, w: nat)
    requires forall i :: 0 <= i < |rows| ==> |rows[i]| == w
    ensures var lines := Layout(rows);
      forall l :: 0 <= l < |lines| ==> |lines[l]| == w
  {
    var lines := Layout(rows);
    LayoutPlacesLines(rows);
    forall l | 0 <= l < |lines|
      ensures |lines[l]| == w
    {
      if l == 3 || l == 7 {
        assert LinesFor(0) == 0;
      } else {
        RowAtPlaces(|rows|, l);
      }
    }
  }

  /** Nine row lines give eleven lines: row 8 gets no dash line after it
      although `8 % 3 == 2`, so the last line is row 8's. */
  lemma NineRowsLines(rows: seq<string>)
    requires |rows| == 9
    ensures var lines := Layout(rows);
      && |lines| == 11
      && lines[3] == Dashes(|rows[0]|) && lines[7] == Dashes(|rows[0]|)
      && lines[10] == rows[8]
  {
    LayoutPlacesLines(rows);
    assert LinesFor(0) == 0 && LinesFor(8) == 10;
  }

  /** The 9x9 puzzle and solution grids: eleven lines of 31 columns, dash
      lines at 3 and 7, and the line of row 8 last. */
  lemma NineByNineLayout(grid: seq<seq<int>>)
    requires |grid| == 9 && DigitCells(grid)
    requires forall i :: 0 <= i < 9 ==> |grid[i]| == 9
    ensures var lines := Layout(RowLines(grid));
      && |lines| == 11
      && (forall l :: 0 <= l < 11 ==> |lines[l]| == 31)
      && lines[3] == Dashes(31) && lines[7] == Dashes(31)
      && lines[10] == RowLine(grid[8])
  {
    var rows := RowLines(grid);
    LayoutWidths(rows, 31);
    NineRowsLines(rows);
  }

  /** One step of `Layout`: the lines of the first `i + 1` rows extend those
      of the first `i`. */
  lemma LayoutStep(rows: seq<string>, i: nat)
    requires i < |rows|
    ensures var shown := Layout(rows[..i]) + [rows[i]];
      Layout(rows[..i + 1]) == if i % 3 == 2 && i < 8 then shown + [Dashes(|shown[0]|)] else shown
  {
    assert rows[..i + 1][..i] == rows[..i];
  }

  /** `format_grid(grid)`. */
  method FormatGrid(grid: seq<seq<int>>) returns (lines: seq<string>)
    requires DigitCells(grid)
    ensures lines == Layout(RowLines(grid))
  {
    ghost var rows := RowLines(grid);
    lines := [];
    for i := 0 to |grid|
      invariant lines == Layout(rows[..i])
    {
      LayoutStep(rows, i);
      var line := RowLine(grid[i]);
      assert line == rows[i];
      lines := lines + [line];
      if i % 3 == 2 && i < 8 {
        lines := lines + [Dashes(|lines[0]|)];
      }
    }
    assert rows[..|grid|] == rows;
  }
}
