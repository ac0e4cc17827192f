/** The aligned text form of a query result (`format_query_results`). */
module ResultTable {
  import opened Common

  /** A cell is a C string or SQL NULL. */
  type Cell = Option<string>

  datatype Table = Table(headers: seq<string>, rows: seq<seq<Cell>>)

  predicate Rectangular(t: Table) {
    forall i :: 0 <= i < |t.rows| ==> |t.rows[i]| == |t.headers|
  }

  function Max(a: nat, b: nat): nat {
    if a < b then b else a
  }

  /** Longest of header `j` and the non-null cells of column `j` in the first `n` rows. */
  function Width(t: Table, j: nat, n: nat): nat
    requires Rectangular(t) && j < |t.headers| && n <= |t.rows|
  {
    if n == 0 then |t.headers[j]|
    else
      var above, cell := Width(t, j, n - 1), t.rows[n - 1][j];
      if cell.Some? then Max(above, |cell.value|) else above
  }

  function Widths(t: Table): (ws: seq<nat>)
    requires Rectangular(t)
    ensures |ws| == |t.headers|
  {
    seq(|t.headers|, j requires 0 <= j < |t.headers| => Width(t, j, |t.rows|))
  }

  /** The width is an upper bound that the header or some cell attains. */
  lemma {:induction false} WidthIsMaximum(t: Table, j: nat, n: nat)
    requires Rectangular(t) && j < |t.headers| && n <= |t.rows|
    ensures |t.headers[j]| <= Width(t, j, n)
    ensures forall i :: 0 <= i < n && t.rows[i][j].Some? ==> |t.rows[i][j].value| <= Width(t, j, n)
    ensures Width(t, j, n) == |t.headers[j]|
         || exists i :: 0 <= i < n && t.rows[i][j].Some? && |t.rows[i][j].value| == Width(t, j, n)
  {
    if n > 0 {
      WidthIsMaximum(t, j, n - 1);
      if t.rows[n - 1][j].Some? && |t.rows[n - 1][j].value| > Width(t, j, n - 1) {
        assert |t.rows[n - 1][j].value| == Width(t, j, n);
      }
    }
  }

  function Repeat(n: nat, c: char): string {
    seq(n, i => c)
  }

  function Padded(text: string, size: nat): string
    requires |text| <= size
  {
    text + Repeat(size - |text|, ' ')
  }

  /** No cell is longer than its column is wide. */
  predicate Fits(widths: seq<nat>, cells: seq<Cell>) {
    |cells| == |widths| && forall j :: 0 <= j < |cells| && cells[j].Some? ==> |cells[j].value| <= widths[j]
  }

  /** A line can be built: below width 2 the padding of NULL, `width - 4 + 2`, wraps around. */
  predicate Buildable(widths: seq<nat>, cells: seq<Cell>)
    requires |cells| == |widths|
  {
    forall j :: 0 <= j < |cells| && cells[j].None? ==> widths[j] >= 2
  }

  /** A cell in a column has room for two more characters than the widest entry. */
  function CellText(width: nat, cell: Cell): string
    requires if cell.Some? then |cell.value| <= width else width >= 2
  {
    Padded(if cell.Some? then cell.value else "NULL", width + 2)
  }

  /** The first `n` cells of a line, after the leading blank. */
  function Line(widths: seq<nat>, cells: seq<Cell>, n: nat): string
    requires Fits(widths, cells) && Buildable(widths, cells) && n <= |cells|
  {
    if n == 0 then " " else Line(widths, cells, n - 1) + CellText(widths[n - 1], cells[n - 1])
  }

  function HeaderCells(t: Table): seq<Cell> {
    seq(|t.headers|, j requires 0 <= j < |t.headers| => Some(t.headers[j]))
  }

  /** Column `j` starts here in every line. */
  function ColumnStart(widths: seq<nat>, j: nat): nat
    requires j <= |widths|
  {
    if j == 0 then 1 else ColumnStart(widths, j - 1) + widths[j - 1] + 2
  }

  function Separator(widths: seq<nat>, n: nat): string
    requires n <= |widths|
  {
    if n == 0 then "-" else Separator(widths, n - 1) + Repeat(widths[n - 1] + 2, '-')
  }

  function Decimal(n: nat): string {
    (if n < 10 then "" else Decimal(n / 10)) + [(n % 10 + '0' as int) as char]
  }

  // ---------- Alignment ----------

  /** Lines and separator all have the length `1 + sum(width + 2)`. */
  lemma {:induction false} LineLength(widths: seq<nat>, cells: seq<Cell>, n: nat)
    requires Fits(widths, cells) && Buildable(widths, cells) && n <= |cells|
    ensures |Line(widths, cells, n)| == |Separator(widths, n)| == ColumnStart(widths, n)
  {
    if n > 0 {
      LineLength(widths, cells, n - 1);
    }
  }

  /** `s` holds `entry` at `at`, followed by blanks up to `size` characters. */
  predicate Shows(s: string, at: nat, size: nat, entry: string) {
    && at + size <= |s| && |entry| <= size
    && s[at..at + |entry|] == entry
    && forall k :: at + |entry| <= k < at + size ==> s[k] == ' '
  }

  function Entry(cell: Cell): string {
    if cell.Some? then cell.value else "NULL"
  }

  /** The text at column `j`'s place in the first `n` cells of the line is that cell, padded. */
  predicate AtItsPlace(widths: seq<nat>, cells: seq<Cell>, n: nat, j: nat)
    requires Fits(widths, cells) && Buildable(widths, cells) && j < n <= |cells|
  {
    Shows(Line(widths, cells, n), ColumnStart(widths, j), widths[j] + 2, Entry(cells[j]))
  }

  lemma ShowsLonger(s: string, more: string, at: nat, size: nat, entry: string)
    requires Shows(s, at, size, entry)
    ensures Shows(s + more, at, size, entry)
  {
    SliceOfLeft(s, more, at, at + |entry|);
  }

  lemma ShowsLater(before: string, s: string, at: nat, size: nat, entry: string)
    requires Shows(s, at, size, entry)
    ensures Shows(before + s, |before| + at, size, entry)
  {
    var all := before + s;
    assert all[|before| + at..|before| + at + |entry|] == s[at..at + |entry|];
    forall k | |before| + at + |entry| <= k < |before| + at + size
      ensures all[k] == ' '
    {
      assert all[k] == s[k - |before|];
    }
  }

  lemma CellTextShows(width: nat, cell: Cell)
    requires if cell.Some? then |cell.value| <= width else width >= 2
    ensures |CellText(width, cell)| == width + 2 && Shows(CellText(width, cell), 0, width + 2, Entry(cell))
  {
    SliceOfLeft(Entry(cell), Repeat(width + 2 - |Entry(cell)|, ' '), 0, |Entry(cell)|);
  }

  lemma LastCellAtItsPlace(widths: seq<nat>, cells: seq<Cell>, n: nat)
    requires Fits(widths, cells) && Buildable(widths, cells) && n < |cells|
    ensures AtItsPlace(widths, cells, n + 1, n)
  {
    LineLength(widths, cells, n);
    CellTextShows(widths[n], cells[n]);
    ShowsLater(Line(widths, cells, n), CellText(widths[n], cells[n]), 0, widths[n] + 2, Entry(cells[n]));
  }

  lemma CellStaysAtItsPlace(widths: seq<nat>, cells: seq<Cell>, n: nat, j: nat)
    requires Fits(widths, cells) && Buildable(widths, cells) && j < n < |cells|
    requires AtItsPlace(widths, cells, n, j)
    ensures AtItsPlace(widths, cells, n + 1, j)
  {
    ShowsLonger(Line(widths, cells, n), CellText(widths[n], cells[n]), ColumnStart(widths, j), widths[j] + 2, Entry(cells[j]));
  }

  /** Whatever stands in the other columns, each cell is found, followed by blanks, at its column's
      place. */
  lemma {:induction false} CellAtItsPlace(widths: seq<nat>, cells: seq<Cell>, n: nat, j: nat)
    requires Fits(widths, cells) && Buildable(widths, cells) && j < n <= |cells|
    ensures AtItsPlace(widths, cells, n, j)
  {
    if j < n - 1 {
      CellAtItsPlace(widths, cells, n - 1, j);
      CellStaysAtItsPlace(widths, cells, n - 1, j);
    } else {
      LastCellAtItsPlace(widths, cells, j);
    }
  }

  lemma SliceOfLeft(left: string, right: string, from: nat, to: nat)
    requires from <= to <= |left|
    ensures (left + right)[from..to] == left[from..to]
  {
  }

  lemma {:induction false} SeparatorIsDashes(widths: seq<nat>, n: nat)
    requires n <= |widths|
    ensures forall k :: 0 <= k < |Separator(widths, n)| ==> Separator(widths, n)[k] == '-'
  {
    if n > 0 {
      SeparatorIsDashes(widths, n - 1);
    }
  }

  function DigitValue(c: char): nat {
    if '0' <= c <= '9' then c as int - '0' as int else 0
  }

  /** Decimal digits read from the left. */
  function ReadDecimal(s: string): nat {
    if s == "" then 0 else ReadDecimal(s[..|s| - 1]) * 10 + DigitValue(s[|s| - 1])
  }

  lemma DecimalPush(init: string, digit: nat)
    requires digit < 10
    ensures var s := init + [(digit + '0' as int) as char];
            && ReadDecimal(s) == ReadDecimal(init) * 10 + digit
            && '0' <= s[|init|] <= '9' && (init == "" ==> (s[0] == '0' <==> digit == 0))
  {
    var s := init + [(digit + '0' as int) as char];
    assert s[..|s| - 1] == init;
  }

  /** The decimal numeral of `n`: digits only, none of them superfluous, that read as `n`. */
  lemma {:induction false} DecimalReads(n: nat)
    ensures forall k :: 0 <= k < |Decimal(n)| ==> '0' <= Decimal(n)[k] <= '9'
    ensures ReadDecimal(Decimal(n)) == n
    ensures Decimal(n) != "" && (Decimal(n)[0] == '0' ==> n == 0 && |Decimal(n)| == 1)
  {
    if n >= 10 {
      DecimalReads(n / 10);
      DecimalPush(Decimal(n / 10), n % 10);
    } else {
      DecimalPush("", n);
      assert ReadDecimal("") == 0;
    }
  }

  lemma AllFit(t: Table)
    requires Rectangular(t)
    ensures Fits(Widths(t), HeaderCells(t)) && Buildable(Widths(t), HeaderCells(t))
    ensures forall i :: 0 <= i < |t.rows| ==> Fits(Widths(t), t.rows[i])
  {
    forall j | 0 <= j < |t.headers|
      ensures |t.headers[j]| <= Widths(t)[j]
      ensures forall i :: 0 <= i < |t.rows| && t.rows[i][j].Some? ==> |t.rows[i][j].value| <= Widths(t)[j]
    {
      WidthIsMaximum(t, j, |t.rows|);
    }
  }

  // ---------- The whole text ----------

  datatype Failure = LengthError

  /** Every line of the first `n` rows can be built. */
  predicate RowsBuildable(t: Table, n: nat)
    requires Rectangular(t) && n <= |t.rows|
  {
    forall i :: 0 <= i < n ==> Buildable(Widths(t), t.rows[i])
  }

  predicate Printable(widths: seq<nat>, rows: seq<seq<Cell>>, n: nat)
    requires n <= |rows|
  {
    forall i :: 0 <= i < n ==> Fits(widths, rows[i]) && Buildable(widths, rows[i])
  }

  function RowLines(widths: seq<nat>, rows: seq<seq<Cell>>, n: nat): string
    requires n <= |rows| && Printable(widths, rows, n)
  {
    if n == 0 then ""
    else RowLines(widths, rows, n - 1) + Line(widths, rows[n - 1], |widths|) + "\n"
  }

  function Formatted(t: Table): Result<string, Failure>
    requires Rectangular(t)
  {
    if !RowsBuildable(t, |t.rows|) then Err(LengthError)
    else
      AllFit(t);
      var ws := Widths(t);
      Ok(Line(ws, HeaderCells(t), |ws|) + "\n" + Separator(ws, |ws|) + "\n"
         + RowLines(ws, t.rows, |t.rows|) + "(" + Decimal(|t.rows|) + " rows)\n")
  }

  // ---------- Where everything stands in the text ----------

  /** The first `n` lines, each with its newline. */
  function Unlined(lines: seq<string>, n: nat): string
    requires n <= |lines|
  {
    if n == 0 then "" else Unlined(lines, n - 1) + (lines[n - 1] + "\n")
  }

  /** `line` stands at `at` and is followed by a newline. */
  predicate LineAt(text: string, at: nat, line: string) {
    at + |line| < |text| && text[at..at + |line|] == line && text[at + |line|] == '\n'
  }

  lemma LineAtLonger(text: string, more: string, at: nat, line: string)
    requires LineAt(text, at, line)
    ensures LineAt(text + more, at, line)
  {
    SliceOfLeft(text, more, at, at + |line|);
  }

  lemma LineAtEnd(before: string, line: string)
    ensures LineAt(before + (line + "\n"), |before|, line)
  {
    var text := before + (line + "\n");
    assert text[|before|..] == line + "\n";
    assert text[|before|..|before| + |line|] == line;
  }

  lemma OneMore(n: nat, stride: nat)
    ensures n * stride + stride == (n + 1) * stride
  {
  }

  /** Of equally long lines, line `i` stands at `i` times their length. */
  lemma {:induction false} EqualLines(lines: seq<string>, n: nat, i: nat, stride: nat)
    requires n <= |lines| && forall k :: 0 <= k < n ==> |lines[k]| + 1 == stride
    ensures |Unlined(lines, n)| == n * stride
    ensures i < n ==> i * stride >= 0 && LineAt(Unlined(lines, n), i * stride, lines[i])
  {
    if n > 0 {
      EqualLines(lines, n - 1, i, stride);
      OneMore(n - 1, stride);
      if i < n - 1 {
        LineAtLonger(Unlined(lines, n - 1), lines[n - 1] + "\n", i * stride, lines[i]);
      } else if i == n - 1 {
        LineAtEnd(Unlined(lines, n - 1), lines[i]);
      }
    }
  }

  lemma Associative(a: string, b: string, c: string)
    ensures (a + b) + c == a + (b + c)
  {
  }

  lemma UnlinedTwo(lines: seq<string>)
    requires |lines| >= 2
    ensures Unlined(lines, 2) == lines[0] + "\n" + lines[1] + "\n" + ""
  {
    assert Unlined(lines, 1) == "" + (lines[0] + "\n") == lines[0] + "\n";
    Associative(lines[0] + "\n", lines[1], "\n");
  }

  lemma {:induction false} UnlinedAfterTwo(a: string, b: string, rest: seq<string>, n: nat)
    requires n <= |rest|
    ensures Unlined([a, b] + rest, n + 2) == a + "\n" + b + "\n" + Unlined(rest, n)
  {
    var lines := [a, b] + rest;
    if n == 0 {
      UnlinedTwo(lines);
    } else {
      UnlinedAfterTwo(a, b, rest, n - 1);
      assert lines[n + 1] == rest[n - 1];
      Associative(a + "\n" + b + "\n", Unlined(rest, n - 1), rest[n - 1] + "\n");
    }
  }

  ghost predicate Ready(ws: seq<nat>, header: seq<Cell>, rows: seq<seq<Cell>>) {
    Fits(ws, header) && Buildable(ws, header) && Printable(ws, rows, |rows|)
  }

  /** Header, separator and one line per row. */
  ghost function AllLines(ws: seq<nat>, header: seq<Cell>, rows: seq<seq<Cell>>): (lines: seq<string>)
    requires Ready(ws, header, rows)
    ensures |lines| == |rows| + 2
  {
    [Line(ws, header, |ws|), Separator(ws, |ws|)]
    + seq(|rows|, i requires 0 <= i < |rows| => Line(ws, rows[i], |ws|))
  }

  lemma {:induction false} RowLinesAreLines(ws: seq<nat>, rows: seq<seq<Cell>>, lines: seq<string>, n: nat)
    requires n <= |rows| == |lines| && Printable(ws, rows, |rows|)
    requires forall i :: 0 <= i < |rows| ==> lines[i] == Line(ws, rows[i], |ws|)
    ensures RowLines(ws, rows, n) == Unlined(lines, n)
  {
    if n > 0 {
      RowLinesAreLines(ws, rows, lines, n - 1);
      Associative(RowLines(ws, rows, n - 1), lines[n - 1], "\n");
    }
  }

  /** The text is these lines and the count. */
  lemma LinesOfText(ws: seq<nat>, header: seq<Cell>, rows: seq<seq<Cell>>)
    requires Ready(ws, header, rows)
    ensures Line(ws, header, |ws|) + "\n" + Separator(ws, |ws|) + "\n" + RowLines(ws, rows, |rows|)
         == Unlined(AllLines(ws, header, rows), |rows| + 2)
  {
    var rest := seq(|rows|, i requires 0 <= i < |rows| => Line(ws, rows[i], |ws|));
    RowLinesAreLines(ws, rows, rest, |rows|);
    UnlinedAfterTwo(Line(ws, header, |ws|), Separator(ws, |ws|), rest, |rows|);
  }

  /** The length of a line with its newline. */
  function Stride(ws: seq<nat>): nat {
    ColumnStart(ws, |ws|) + 1
  }

  lemma AllLinesAreEqual(ws: seq<nat>, header: seq<Cell>, rows: seq<seq<Cell>>)
    requires Ready(ws, header, rows)
    ensures forall k :: 0 <= k < |rows| + 2 ==> |AllLines(ws, header, rows)[k]| + 1 == Stride(ws)
  {
    LineLength(ws, header, |ws|);
    forall i | 0 <= i < |rows|
      ensures |Line(ws, rows[i], |ws|)| + 1 == Stride(ws)
    {
      LineLength(ws, rows[i], |ws|);
    }
  }

  function Count(t: Table): string {
    "(" + Decimal(|t.rows|) + " rows)\n"
  }

  lemma CountLast(top: string, rows: string, n: string)
    ensures top + rows + "(" + n + " rows)\n" == (top + rows) + ("(" + n + " rows)\n")
  {
    Associative(top + rows, "(", n);
    Associative(top + rows, "(" + n, " rows)\n");
  }

  lemma FormattedIs(t: Table)
    requires Rectangular(t) && Formatted(t).Ok?
    ensures Ready(Widths(t), HeaderCells(t), t.rows)
    ensures Formatted(t).value == Unlined(AllLines(Widths(t), HeaderCells(t), t.rows), |t.rows| + 2) + Count(t)
  {
    AllFit(t);
    var ws := Widths(t);
    LinesOfText(ws, HeaderCells(t), t.rows);
    CountLast(Line(ws, HeaderCells(t), |ws|) + "\n" + Separator(ws, |ws|) + "\n", RowLines(ws, t.rows, |t.rows|), Decimal(|t.rows|));
  }

  /** Line `r` of the text: 0 is the header, 1 the separator, `i + 2` row `i`. */
  lemma LineInText(lines: seq<string>, count: string, r: nat, stride: nat)
    requires r < |lines| && forall k :: 0 <= k < |lines| ==> |lines[k]| + 1 == stride
    ensures r * stride >= 0 && LineAt(Unlined(lines, |lines|) + count, r * stride, lines[r])
  {
    EqualLines(lines, |lines|, r, stride);
    LineAtLonger(Unlined(lines, |lines|), count, r * stride, lines[r]);
  }

  lemma ShowsIn(text: string, from: nat, line: string, at: nat, size: nat, entry: string)
    requires LineAt(text, from, line) && Shows(line, at, size, entry)
    ensures Shows(text, from + at, size, entry)
  {
    ShowsLater(text[..from], line, at, size, entry);
    ShowsLonger(text[..from] + line, text[from + |line|..], from + at, size, entry);
    assert text == (text[..from] + line) + text[from + |line|..];
  }

  lemma LinesByNumber(ws: seq<nat>, header: seq<Cell>, rows: seq<seq<Cell>>, i: nat)
    requires Ready(ws, header, rows)
    ensures AllLines(ws, header, rows)[0] == Line(ws, header, |ws|)
    ensures AllLines(ws, header, rows)[1] == Separator(ws, |ws|)
    ensures i < |rows| ==> AllLines(ws, header, rows)[i + 2] == Line(ws, rows[i], |ws|)
  {
  }

  lemma NumberedLines(ws: seq<nat>, header: seq<Cell>, rows: seq<seq<Cell>>, count: string, r: nat)
    requires Ready(ws, header, rows) && r < |rows| + 2
    ensures r * Stride(ws) >= 0
    ensures LineAt(Unlined(AllLines(ws, header, rows), |rows| + 2) + count, r * Stride(ws), AllLines(ws, header, rows)[r])
  {
    AllLinesAreEqual(ws, header, rows);
    LineInText(AllLines(ws, header, rows), count, r, Stride(ws));
  }

  lemma RowNumbered(ws: seq<nat>, header: seq<Cell>, rows: seq<seq<Cell>>, count: string, i: nat, at: nat)
    requires Ready(ws, header, rows) && i < |rows| && at == (i + 2) * Stride(ws)
    ensures LineAt(Unlined(AllLines(ws, header, rows), |rows| + 2) + count, at, Line(ws, rows[i], |ws|))
  {
    NumberedLines(ws, header, rows, count, i + 2);
    LinesByNumber(ws, header, rows, i);
  }

  lemma HeaderLineOf(t: Table)
    requires Rectangular(t) && Formatted(t).Ok?
    ensures Ready(Widths(t), HeaderCells(t), t.rows)
    ensures LineAt(Formatted(t).value, 0, Line(Widths(t), HeaderCells(t), |t.headers|))
  {
    FormattedIs(t);
    NumberedLines(Widths(t), HeaderCells(t), t.rows, Count(t), 0);
    LinesByNumber(Widths(t), HeaderCells(t), t.rows, 0);
  }

  lemma SeparatorLineOf(t: Table)
    requires Rectangular(t) && Formatted(t).Ok?
    ensures LineAt(Formatted(t).value, Stride(Widths(t)), Separator(Widths(t), |t.headers|))
  {
    FormattedIs(t);
    NumberedLines(Widths(t), HeaderCells(t), t.rows, Count(t), 1);
    LinesByNumber(Widths(t), HeaderCells(t), t.rows, 0);
  }

  lemma RowLineOf(t: Table, i: nat, at: nat)
    requires Rectangular(t) && Formatted(t).Ok? && i < |t.rows| && at == (i + 2) * Stride(Widths(t))
    ensures Ready(Widths(t), HeaderCells(t), t.rows)
    ensures LineAt(Formatted(t).value, at, Line(Widths(t), t.rows[i], |t.headers|))
  {
    FormattedIs(t);
    RowNumbered(Widths(t), HeaderCells(t), t.rows, Count(t), i, at);
  }

  lemma CellShown(text: string, at: nat, ws: seq<nat>, cells: seq<Cell>, j: nat)
    requires Fits(ws, cells) && Buildable(ws, cells) && j < |ws|
    requires LineAt(text, at, Line(ws, cells, |ws|))
    ensures Shows(text, at + ColumnStart(ws, j), ws[j] + 2, Entry(cells[j]))
  {
    var line, start := Line(ws, cells, |ws|), ColumnStart(ws, j);
    assert Shows(line, start, ws[j] + 2, Entry(cells[j])) by {
      CellAtItsPlace(ws, cells, |ws|, j);
    }
    ShowsIn(text, at, line, start, ws[j] + 2, Entry(cells[j]));
  }

  /** Every header is found at its column's start, followed by blanks. */
  lemma {:induction false} HeaderInText(t: Table, j: nat)
    requires Rectangular(t) && Formatted(t).Ok? && j < |t.headers|
    ensures Shows(Formatted(t).value, ColumnStart(Widths(t), j), Widths(t)[j] + 2, t.headers[j])
  {
    var text := Formatted(t).value;
    assert LineAt(text, 0, Line(Widths(t), HeaderCells(t), |t.headers|)) by { HeaderLineOf(t); }
    AllFit(t);
    CellShown(text, 0, Widths(t), HeaderCells(t), j);
    assert Entry(HeaderCells(t)[j]) == t.headers[j];
  }

  /** Every cell of every row is found at `(i + 2)` lines of equal length plus its column's start,
      whatever the other cells are. */
  lemma {:induction false} CellInText(t: Table, i: nat, j: nat, at: nat)
    requires Rectangular(t) && Formatted(t).Ok? && i < |t.rows| && j < |t.headers|
    requires at == (i + 2) * Stride(Widths(t))
    ensures Shows(Formatted(t).value, at + ColumnStart(Widths(t), j), Widths(t)[j] + 2, Entry(t.rows[i][j]))
  {
    RowLineOf(t, i, at);
    CellShown(Formatted(t).value, at, Widths(t), t.rows[i], j);
  }

  lemma {:induction false} LineStartsBlank(widths: seq<nat>, cells: seq<Cell>, n: nat)
    requires Fits(widths, cells) && Buildable(widths, cells) && n <= |cells|
    ensures Line(widths, cells, n) != "" && Line(widths, cells, n)[0] == ' '
  {
    if n > 0 {
      LineStartsBlank(widths, cells, n - 1);
    }
  }

  /** A line of `stride` characters with its newline, beginning with a blank. */
  predicate BlankLineStart(text: string, at: nat, stride: nat) {
    0 < stride && at + stride <= |text| && text[at] == ' ' && text[at + stride - 1] == '\n'
  }

  predicate DashLine(text: string, at: nat, stride: nat) {
    && 0 < stride && at + stride <= |text| && text[at + stride - 1] == '\n'
    && forall k :: at <= k < at + stride - 1 ==> text[k] == '-'
  }

  lemma LineFramed(text: string, at: nat, line: string)
    requires LineAt(text, at, line) && line != "" && line[0] == ' '
    ensures BlankLineStart(text, at, |line| + 1)
  {
    assert text[at..at + |line|][0] == text[at];
  }

  lemma DashesFramed(text: string, at: nat, line: string)
    requires LineAt(text, at, line) && forall k :: 0 <= k < |line| ==> line[k] == '-'
    ensures DashLine(text, at, |line| + 1)
  {
    forall k | at <= k < at + |line|
      ensures text[k] == '-'
    {
      assert text[at..at + |line|][k - at] == text[k];
    }
  }

  lemma LineOfText(text: string, at: nat, ws: seq<nat>, cells: seq<Cell>)
    requires Fits(ws, cells) && Buildable(ws, cells)
    requires LineAt(text, at, Line(ws, cells, |ws|))
    ensures BlankLineStart(text, at, Stride(ws))
  {
    LineLength(ws, cells, |ws|);
    LineStartsBlank(ws, cells, |ws|);
    LineFramed(text, at, Line(ws, cells, |ws|));
  }

  /** The header line begins with a blank; the second line is all dashes. */
  lemma {:induction false} TopOfText(t: Table)
    requires Rectangular(t) && Formatted(t).Ok?
    ensures BlankLineStart(Formatted(t).value, 0, Stride(Widths(t)))
    ensures DashLine(Formatted(t).value, Stride(Widths(t)), Stride(Widths(t)))
  {
    HeaderLineOf(t);
    LineOfText(Formatted(t).value, 0, Widths(t), HeaderCells(t));
    SeparatorLineOf(t);
    LineLength(Widths(t), HeaderCells(t), |t.headers|);
    SeparatorIsDashes(Widths(t), |t.headers|);
    DashesFramed(Formatted(t).value, Stride(Widths(t)), Separator(Widths(t), |t.headers|));
  }

  /** Row `i` is the line of that number, two below. */
  lemma {:induction false} RowOfText(t: Table, i: nat, at: nat)
    requires Rectangular(t) && Formatted(t).Ok? && i < |t.rows| && at == (i + 2) * Stride(Widths(t))
    ensures BlankLineStart(Formatted(t).value, at, Stride(Widths(t)))
  {
    RowLineOf(t, i, at);
    LineOfText(Formatted(t).value, at, Widths(t), t.rows[i]);
  }

  /** After the lines the number of rows. */
  lemma {:induction false} CountInText(t: Table)
    requires Rectangular(t) && Formatted(t).Ok?
    ensures var text, end := Formatted(t).value, (|t.rows| + 2) * Stride(Widths(t));
            0 <= end <= |text| && text[end..] == "(" + Decimal(|t.rows|) + " rows)\n"
  {
    FormattedIs(t);
    var lines := AllLines(Widths(t), HeaderCells(t), t.rows);
    AllLinesAreEqual(Widths(t), HeaderCells(t), t.rows);
    EqualLines(lines, |lines|, 0, Stride(Widths(t)));
  }

  /** When a column is too narrow for the code, in terms of the table alone: it holds a NULL, and
      its header and all of its values have fewer than two characters. */
  lemma FormattingFailsIff(t: Table)
    requires Rectangular(t)
    ensures Formatted(t).Err?
       <==> exists j :: 0 <= j < |t.headers|
              && (exists i :: 0 <= i < |t.rows| && t.rows[i][j].None?)
              && |t.headers[j]| < 2
              && (forall i :: 0 <= i < |t.rows| && t.rows[i][j].Some? ==> |t.rows[i][j].value| < 2)
  {
    forall j | 0 <= j < |t.headers|
      ensures Widths(t)[j] < 2
         <==> |t.headers[j]| < 2 && (forall i :: 0 <= i < |t.rows| && t.rows[i][j].Some? ==> |t.rows[i][j].value| < 2)
    {
      WidthIsMaximum(t, j, |t.rows|);
    }
    if Formatted(t).Err? {
      var i :| 0 <= i < |t.rows| && !Buildable(Widths(t), t.rows[i]);
      var j :| 0 <= j < |t.headers| && t.rows[i][j].None? && Widths(t)[j] < 2;
    }
  }

  // ---------- The code's loops ----------

  method ColumnWidths(t: Table) returns (widths: seq<nat>)
    requires Rectangular(t)
    ensures widths == Widths(t)
  {
    widths := [];
    for j := 0 to |t.headers|
      invariant |widths| == j && forall k :: 0 <= k < j ==> widths[k] == Width(t, k, 0)
    {
      widths := widths + [|t.headers[j]|];
    }
    for i := 0 to |t.rows|
      invariant |widths| == |t.headers|
      invariant forall k :: 0 <= k < |widths| ==> widths[k] == Width(t, k, i)
    {
      for j := 0 to |t.headers|
        invariant |widths| == |t.headers|
        invariant forall k :: 0 <= k < j ==> widths[k] == Width(t, k, i + 1)
        invariant forall k :: j <= k < |widths| ==> widths[k] == Width(t, k, i)
      {
        if t.rows[i][j].Some? {
          widths := widths[j := Max(widths[j], |t.rows[i][j].value|)];
        }
      }
    }
  }

  /** One line, left to right; `None` at the first NULL whose padding wraps around. */
  method BuildLine(widths: seq<nat>, cells: seq<Cell>) returns (line: Option<string>)
    requires Fits(widths, cells)
    ensures line.Some? <==> Buildable(widths, cells)
    ensures line.Some? ==> line.value == Line(widths, cells, |cells|)
  {
    var text := " ";
    for j := 0 to |cells|
      invariant forall k :: 0 <= k < j && cells[k].None? ==> widths[k] >= 2
      invariant Buildable(widths, cells) ==> text == Line(widths, cells, j)
    {
      match cells[j]
      case Some(value) =>
        text := text + (value + Repeat(widths[j] - |value| + 2, ' '));
      case None =>
        if widths[j] < 2 { return None; }
        text := text + ("NULL" + Repeat(widths[j] - 2, ' '));
    }
    line := Some(text);
  }

  method BuildSeparator(widths: seq<nat>) returns (text: string)
    ensures text == Separator(widths, |widths|)
  {
    text := "-";
    for j := 0 to |widths|
      invariant text == Separator(widths, j)
    {
      text := text + Repeat(widths[j] + 2, '-');
    }
  }

  method BuildRows(widths: seq<nat>, rows: seq<seq<Cell>>) returns (body: Option<string>)
    requires forall i :: 0 <= i < |rows| ==> Fits(widths, rows[i])
    ensures body.Some? <==> Printable(widths, rows, |rows|)
    ensures body.Some? ==> body.value == RowLines(widths, rows, |rows|)
  {
    var text := "";
    for i := 0 to |rows|
      invariant Printable(widths, rows, i) && text == RowLines(widths, rows, i)
    {
      var line := BuildLine(widths, rows[i]);
      if line.None? { return None; }
      assert Printable(widths, rows, i + 1);
      assert RowLines(widths, rows, i + 1) == text + line.value + "\n";
      text := text + line.value + "\n";
    }
    body := Some(text);
  }

  method FormatQueryResults(t: Table) returns (result: Result<string, Failure>)
    requires Rectangular(t)
    ensures result == Formatted(t)
  {
    AllFit(t);
    var widths := ColumnWidths(t);
    var header := BuildLine(widths, HeaderCells(t));
    var separator := BuildSeparator(widths);
    var body := BuildRows(widths, t.rows);
    if body.None? { return Err(LengthError); }
    result := Ok(header.value + "\n" + separator + "\n" + body.value + "(" + Decimal(|t.rows|) + " rows)\n");
  }
}
