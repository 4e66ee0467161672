/** The printer that turns a table's cell list into a Markdown table, and the parser that
    reads such a table back (section 4.10 of the GitHub Flavored Markdown Spec: cells are
    separated by pipes, a pipe inside a cell is escaped with a backslash, and spaces around
    the cell's content are trimmed). */
module TablePrinter {
  import opened Text

  datatype Cell = Cell(text: Option<string>, startRow: int, startCol: int, endRow: int, endCol: int)
  datatype Table = Table(cells: seq<Cell>, numRows: int, numCols: int)

  type Grid = seq<seq<string>>

  // ---------------------------------------------------------------- one cell

  /** `replace("\n", " ")` */
  function Flatten(s: string): (r: string)
    ensures '\n' !in r
    ensures |r| == |s| && forall i :: 0 <= i < |s| ==> r[i] == if s[i] == '\n' then ' ' else s[i]
  {
    if s == "" then "" else [if s[0] == '\n' then ' ' else s[0]] + Flatten(s[1..])
  }

  /** `replace("|", "\\|")` */
  function Escape(s: string): (r: string)
    ensures r != "" ==> r[0] != '|'
  {
    if s == "" then "" else (if s[0] == '|' then "\\|" else [s[0]]) + Escape(s[1..])
  }

  function CellText(text: Option<string>): string {
    match text case None => "" case Some(t) => Strip(Escape(Flatten(t)))
  }

  /** What the cell says: its text on one line, trimmed. */
  function Plain(text: Option<string>): string {
    match text case None => "" case Some(t) => Strip(Flatten(t))
  }

  // ---------------------------------------------------------------- the printer

  /** The text of the last cell that starts at the given position. */
  function CellAt(cells: seq<Cell>, row: int, col: int): Option<string> {
    if cells == [] then None
    else
      var last := cells[|cells| - 1];
      if last.startRow == row && last.startCol == col then last.text
      else CellAt(cells[..|cells| - 1], row, col)
  }

  function Max(a: int, b: int): int {
    if a > b then a else b
  }

  function MaxEndRow(cells: seq<Cell>, least: int): int {
    if cells == [] then least else Max(MaxEndRow(cells[..|cells| - 1], least), cells[|cells| - 1].endRow)
  }

  function MaxEndCol(cells: seq<Cell>, least: int): int {
    if cells == [] then least else Max(MaxEndCol(cells[..|cells| - 1], least), cells[|cells| - 1].endCol)
  }

  /** The declared dimensions, or, when one of them is missing, the extent of the cells. */
  function Dimensions(t: Table): (int, int) {
    if t.numRows == 0 || t.numCols == 0
    then (MaxEndRow(t.cells, t.numRows), MaxEndCol(t.cells, t.numCols))
    else (t.numRows, t.numCols)
  }

  function Texts(cells: seq<Cell>, rows: nat, cols: nat, show: Option<string> -> string): Grid {
    seq(rows, r => seq(cols, c => show(CellAt(cells, r, c))))
  }

  function PrintRow(row: seq<string>): string {
    "| " + Join(row, " | ") + " |"
  }

  function PrintRows(rows: Grid): seq<string> {
    if rows == [] then [] else [PrintRow(rows[0])] + PrintRows(rows[1..])
  }

  function Dashes(cols: nat): seq<string> {
    seq(cols, _ => "---")
  }

  function PrintLines(grid: Grid, cols: nat): seq<string> {
    if grid == [] then [] else [PrintRow(grid[0]), PrintRow(Dashes(cols))] + PrintRows(grid[1..])
  }

  function Print(table: Option<Table>): string {
    if table.None? || table.value.cells == [] then ""
    else
      var (rows, cols) := Dimensions(table.value);
      if rows == 0 || cols == 0 then ""
      else Join(PrintLines(Texts(table.value.cells, Max(rows, 0), Max(cols, 0), CellText), Max(cols, 0)), "\n")
  }

  ghost predicate Filled(grid: array2<string>, cells: seq<Cell>)
    reads grid
  {
    forall r, c :: 0 <= r < grid.Length0 && 0 <= c < grid.Length1 ==> grid[r, c] == CellText(CellAt(cells, r, c))
  }

  ghost function RowOf(grid: array2<string>, r: nat): seq<string>
    requires r < grid.Length0
    reads grid
  {
    seq(grid.Length1, c requires 0 <= c < grid.Length1 reads grid => grid[r, c])
  }

  method ReadRow(grid: array2<string>, r: nat) returns (row: seq<string>)
    requires r < grid.Length0
    ensures row == RowOf(grid, r)
  {
    row := [];
    for c := 0 to grid.Length1
      invariant |row| == c && forall k :: 0 <= k < c ==> row[k] == grid[r, k]
    {
      row := row + [grid[r, c]];
    }
  }

  method FillGrid(cells: seq<Cell>, rows: nat, cols: nat) returns (grid: array2<string>)
    ensures fresh(grid) && grid.Length0 == rows && grid.Length1 == cols && Filled(grid, cells)
  {
    grid := new string[rows, cols]((_, _) => "");
    for k := 0 to |cells|
      invariant Filled(grid, cells[..k])
    {
      var cell := cells[k];
      ghost var before, after := cells[..k], cells[..k + 1];
      assert after[..k] == before;
      if 0 <= cell.startRow < rows && 0 <= cell.startCol < cols {
        grid[cell.startRow, cell.startCol] :=
          if cell.text.Some? && cell.text.value != "" then Strip(Escape(Flatten(cell.text.value))) else "";
      }
    }
    assert cells[..|cells|] == cells;
  }

  method FindDimensions(t: Table) returns (numRows: int, numCols: int)
    ensures (numRows, numCols) == Dimensions(t)
  {
    numRows, numCols := t.numRows, t.numCols;
    if numRows == 0 || numCols == 0 {
      for k := 0 to |t.cells|
        invariant numRows == MaxEndRow(t.cells[..k], t.numRows)
        invariant numCols == MaxEndCol(t.cells[..k], t.numCols)
      {
        assert t.cells[..k + 1][..k] == t.cells[..k];
        numRows := Max(numRows, t.cells[k].endRow);
        numCols := Max(numCols, t.cells[k].endCol);
      }
      assert t.cells[..|t.cells|] == t.cells;
    }
  }

  method PrintGrid(grid: array2<string>, ghost texts: Grid) returns (lines: seq<string>)
    requires |texts| == grid.Length0
    requires forall r :: 0 <= r < |texts| ==> texts[r] == RowOf(grid, r)
    ensures lines == PrintLines(texts, grid.Length1)
  {
    lines := [];
    if grid.Length0 > 0 {
      var row := ReadRow(grid, 0);
      lines := [PrintRow(row), PrintRow(Dashes(grid.Length1))];
      ghost var head := lines;
      for r := 1 to grid.Length0
        invariant lines == head + PrintRows(texts[1..r])
      {
        row := ReadRow(grid, r);
        PrintRowsSnoc(texts[1..r], texts[r]);
        assert texts[1..r + 1] == texts[1..r] + [texts[r]];
        lines := lines + [PrintRow(row)];
      }
      assert texts[1..grid.Length0] == texts[1..];
    }
  }

  method SerializeTable(table: Option<Table>) returns (markdown: string)
    ensures markdown == Print(table)
  {
    if table.None? || table.value.cells == [] {
      return "";
    }
    var numRows, numCols := FindDimensions(table.value);
    if numRows == 0 || numCols == 0 {
      return "";
    }
    var rows: nat, cols: nat := Max(numRows, 0), Max(numCols, 0);
    var grid := FillGrid(table.value.cells, rows, cols);
    ghost var texts := Texts(table.value.cells, rows, cols, CellText);
    forall r | 0 <= r < rows ensures texts[r] == RowOf(grid, r) {
    }
    var lines := PrintGrid(grid, texts);
    markdown := Join(lines, "\n");
  }

  lemma {:induction false} PrintRowsSnoc(rows: Grid, row: seq<string>)
    ensures PrintRows(rows + [row]) == PrintRows(rows) + [PrintRow(row)]
  {
    if rows != [] {
      assert (rows + [row])[1..] == rows[1..] + [row];
      PrintRowsSnoc(rows[1..], row);
    } else {
      assert [row][1..] == [];
    }
  }

  // ---------------------------------------------------------------- the parser

  /** Splits at the pipes that no backslash precedes; `prev` is the character before `s`. */
  function SplitBars(s: string, prev: char): (parts: seq<string>)
    ensures parts != []
  {
    if s == "" then [""]
    else
      var rest := SplitBars(s[1..], s[0]);
      if s[0] == '|' && prev != '\\' then [""] + rest
      else [[s[0]] + rest[0]] + rest[1..]
  }

  /** `replace("\\|", "|")` */
  function Unescape(s: string): string {
    if |s| >= 2 && s[0] == '\\' && s[1] == '|' then "|" + Unescape(s[2..])
    else if s == "" then ""
    else [s[0]] + Unescape(s[1..])
  }

  function ReadCells(parts: seq<string>): seq<string> {
    if parts == [] then [] else [Unescape(Strip(parts[0]))] + ReadCells(parts[1..])
  }

  function Inner(parts: seq<string>): seq<string> {
    if |parts| < 2 then [] else parts[1..|parts| - 1]
  }

  /** The cells of a line, without what is outside its outermost pipes. */
  function ParseRow(line: string): seq<string> {
    ReadCells(Inner(SplitBars(line, ' ')))
  }

  function ParseRows(lines: seq<string>): Grid {
    if lines == [] then [] else [ParseRow(lines[0])] + ParseRows(lines[1..])
  }

  /** The header row, and the rows after the delimiter row. */
  function ParseLines(lines: seq<string>): Grid {
    if |lines| < 2 then [] else [ParseRow(lines[0])] + ParseRows(lines[2..])
  }

  function Parse(markdown: string): Grid {
    ParseLines(Split(markdown, '\n'))
  }

  /** The second line, which declares the columns. */
  function ParseDelimiters(markdown: string): seq<string> {
    var lines := Split(markdown, '\n');
    if |lines| < 2 then [] else ParseRow(lines[1])
  }

  // ---------------------------------------------------------------- cells survive

  lemma {:induction false} UnescapeEscape(s: string)
    ensures Unescape(Escape(s)) == s
  {
    if s != "" {
      UnescapeEscape(s[1..]);
      var rest := Escape(s[1..]);
      if s[0] == '|' {
        assert Escape(s)[2..] == rest;
      } else {
        assert Escape(s)[1..] == rest;
      }
    }
  }

  lemma {:induction false} EscapeSnoc(s: string, c: char)
    ensures Escape(s + [c]) == Escape(s) + (if c == '|' then "\\|" else [c])
  {
    if s == "" {
      assert s + [c] == [c] && [c][1..] == "" && Escape("") == "";
    } else {
      assert (s + [c])[1..] == s[1..] + [c];
      EscapeSnoc(s[1..], c);
    }
  }

  lemma {:induction false} LStripEscape(s: string)
    ensures LStrip(Escape(s)) == Escape(LStrip(s))
  {
    if s != "" && IsSpace(s[0]) {
      assert Escape(s)[1..] == Escape(s[1..]);
      LStripEscape(s[1..]);
    }
  }

  lemma {:induction false} RStripEscape(s: string)
    ensures RStrip(Escape(s)) == Escape(RStrip(s))
  {
    if s != "" {
      var init, c := s[..|s| - 1], s[|s| - 1];
      assert s == init + [c];
      EscapeSnoc(init, c);
      if IsSpace(c) {
        assert Escape(s)[..|Escape(s)| - 1] == Escape(init);
        RStripEscape(init);
      }
    }
  }

  /** The printed text of a cell is its plain text with the pipes escaped. */
  lemma CellTextIsEscapedPlain(text: Option<string>)
    ensures CellText(text) == Escape(Plain(text))
  {
    if text.Some? {
      LStripEscape(Flatten(text.value));
      RStripEscape(LStrip(Flatten(text.value)));
    }
  }

  /** Every pipe is preceded by a backslash. */
  ghost predicate NoBareBar(s: string, prev: char) {
    s != "" ==> (s[0] == '|' ==> prev == '\\') && NoBareBar(s[1..], s[0])
  }

  lemma {:induction false} SplitBarsAt(a: string, b: string, prev: char)
    requires NoBareBar(a, prev)
    requires (if a == "" then prev else a[|a| - 1]) != '\\'
    ensures SplitBars(a + "|" + b, prev) == [a] + SplitBars(b, '|')
  {
    var s := a + "|" + b;
    if a == "" {
      assert s[1..] == b;
    } else {
      assert s[1..] == a[1..] + "|" + b;
      SplitBarsAt(a[1..], b, a[0]);
      assert [a[0]] + a[1..] == a;
    }
  }

  lemma NoBareBarCons(c: char, s: string, prev: char)
    requires NoBareBar(s, c) && (c == '|' ==> prev == '\\')
    ensures NoBareBar([c] + s, prev)
  {
    assert ([c] + s)[1..] == s;
  }

  lemma {:induction false} EscapedHasNoBareBar(s: string, prev: char)
    ensures NoBareBar(Escape(s) + " ", prev)
  {
    if s == "" {
      assert Escape(s) + " " == [' '] + "";
      NoBareBarCons(' ', "", prev);
    } else {
      var rest := Escape(s[1..]) + " ";
      EscapedHasNoBareBar(s[1..], s[0]);
      if s[0] == '|' {
        NoBareBarCons('|', rest, '\\');
        NoBareBarCons('\\', ['|'] + rest, prev);
        assert Escape(s) + " " == ['\\'] + (['|'] + rest);
      } else {
        NoBareBarCons(s[0], rest, prev);
        assert Escape(s) + " " == [s[0]] + rest;
      }
    }
  }

  function Padded(cells: seq<string>): seq<string> {
    if cells == [] then [] else [" " + Escape(cells[0]) + " "] + Padded(cells[1..])
  }

  function EscapeAll(cells: seq<string>): seq<string> {
    if cells == [] then [] else [Escape(cells[0])] + EscapeAll(cells[1..])
  }

  /** A printed row from its first pipe on. */
  function Bars(padded: seq<string>): string {
    if padded == [] then "" else padded[0] + "|" + Bars(padded[1..])
  }

  lemma GlueCell(e: string, rest: string)
    ensures " " + (e + " | " + rest) + " |" == (" " + e + " ") + "|" + (" " + rest + " |")
  {
  }

  lemma {:induction false} RowIsBars(cells: seq<string>)
    requires cells != []
    ensures " " + Join(EscapeAll(cells), " | ") + " |" == Bars(Padded(cells))
  {
    var e := Escape(cells[0]);
    assert EscapeAll(cells)[1..] == EscapeAll(cells[1..]);
    assert Padded(cells)[1..] == Padded(cells[1..]);
    if |cells| == 1 {
      assert EscapeAll(cells) == [e] && Bars(Padded(cells[1..])) == "";
      assert " " + e + " |" == (" " + e + " ") + "|" + "";
    } else {
      RowIsBars(cells[1..]);
      GlueCell(e, Join(EscapeAll(cells[1..]), " | "));
    }
  }

  lemma {:induction false} SplitBarsOfBars(cells: seq<string>)
    ensures SplitBars(Bars(Padded(cells)), '|') == Padded(cells) + [""]
  {
    if cells != [] {
      var first := " " + Escape(cells[0]) + " ";
      assert Padded(cells)[1..] == Padded(cells[1..]);
      EscapedHasNoBareBar(cells[0], ' ');
      assert first == [' '] + (Escape(cells[0]) + " ");
      NoBareBarCons(' ', Escape(cells[0]) + " ", '|');
      SplitBarsAt(first, Bars(Padded(cells[1..])), '|');
      SplitBarsOfBars(cells[1..]);
    }
  }

  lemma ReadPaddedCell(cell: string)
    requires IsStripped(cell)
    ensures Unescape(Strip(" " + Escape(cell) + " ")) == cell
  {
    EscapedStripped(cell);
    StripPadded(Escape(cell));
    UnescapeEscape(cell);
  }

  lemma {:induction false} ReadPadded(cells: seq<string>)
    requires forall i :: 0 <= i < |cells| ==> IsStripped(cells[i])
    ensures ReadCells(Padded(cells)) == cells
  {
    if cells != [] {
      assert Padded(cells)[1..] == Padded(cells[1..]);
      ReadPadded(cells[1..]);
      ReadPaddedCell(cells[0]);
    }
  }

  lemma EscapedStripped(s: string)
    requires IsStripped(s)
    ensures IsStripped(Escape(s))
  {
    if s != "" {
      assert s == s[..|s| - 1] + [s[|s| - 1]];
      EscapeSnoc(s[..|s| - 1], s[|s| - 1]);
    }
  }

  lemma GlueRow(inner: string)
    ensures "| " + inner + " |" == "|" + (" " + inner + " |")
  {
  }

  lemma LeadingBar(rest: string)
    ensures SplitBars("|" + rest, ' ') == [""] + SplitBars(rest, '|')
  {
    assert ("|" + rest)[1..] == rest;
  }

  lemma InnerParts(parts: seq<string>)
    ensures Inner([""] + (parts + [""])) == parts
  {
  }

  lemma PartsOfRow(cells: seq<string>)
    requires cells != []
    ensures SplitBars(PrintRow(EscapeAll(cells)), ' ') == [""] + (Padded(cells) + [""])
  {
    GlueRow(Join(EscapeAll(cells), " | "));
    RowIsBars(cells);
    LeadingBar(Bars(Padded(cells)));
    SplitBarsOfBars(cells);
  }

  /** A row comes back as it was printed, whatever pipes and backslashes its cells hold. */
  lemma RowRoundTrip(cells: seq<string>)
    requires cells != [] && forall i :: 0 <= i < |cells| ==> IsStripped(cells[i])
    ensures ParseRow(PrintRow(EscapeAll(cells))) == cells
  {
    PartsOfRow(cells);
    InnerParts(Padded(cells));
    ReadPadded(cells);
  }

  // ---------------------------------------------------------------- tables survive

  lemma {:induction false} JoinHasNoNewline(parts: seq<string>, sep: string)
    requires '\n' !in sep && forall i :: 0 <= i < |parts| ==> '\n' !in parts[i]
    ensures '\n' !in Join(parts, sep)
  {
    if |parts| > 1 {
      JoinHasNoNewline(parts[1..], sep);
    }
  }

  lemma {:induction false} EscapeKeepsLine(s: string)
    requires '\n' !in s
    ensures '\n' !in Escape(s)
  {
    if s != "" {
      EscapeKeepsLine(s[1..]);
    }
  }

  lemma {:induction false} EscapeAllItems(cells: seq<string>)
    ensures |EscapeAll(cells)| == |cells|
    ensures forall i :: 0 <= i < |cells| ==> EscapeAll(cells)[i] == Escape(cells[i])
  {
    if cells != [] {
      EscapeAllItems(cells[1..]);
    }
  }

  ghost predicate OneLine(row: seq<string>) {
    forall i :: 0 <= i < |row| ==> IsStripped(row[i]) && '\n' !in row[i]
  }

  lemma RowIsOneLine(cells: seq<string>)
    requires OneLine(cells)
    ensures '\n' !in PrintRow(EscapeAll(cells))
  {
    EscapeAllItems(cells);
    forall i | 0 <= i < |cells| ensures '\n' !in EscapeAll(cells)[i] {
      EscapeKeepsLine(cells[i]);
    }
    JoinHasNoNewline(EscapeAll(cells), " | ");
  }

  function EscapeRows(grid: Grid): Grid {
    if grid == [] then [] else [EscapeAll(grid[0])] + EscapeRows(grid[1..])
  }

  ghost predicate Rectangular(grid: Grid, cols: nat) {
    forall r :: 0 <= r < |grid| ==> |grid[r]| == cols && OneLine(grid[r])
  }

  lemma {:induction false} RowsRoundTrip(grid: Grid, cols: nat)
    requires cols > 0 && Rectangular(grid, cols)
    ensures ParseRows(PrintRows(EscapeRows(grid))) == grid
  {
    if grid != [] {
      var rows := PrintRows(EscapeRows(grid));
      RowsRoundTrip(grid[1..], cols);
      RowRoundTrip(grid[0]);
      assert EscapeRows(grid)[1..] == EscapeRows(grid[1..]);
      assert rows[1..] == PrintRows(EscapeRows(grid[1..]));
    }
  }

  lemma {:induction false} RowsAreLines(grid: Grid, cols: nat)
    requires Rectangular(grid, cols)
    ensures forall i :: 0 <= i < |PrintRows(EscapeRows(grid))| ==> '\n' !in PrintRows(EscapeRows(grid))[i]
  {
    if grid != [] {
      var rows := PrintRows(EscapeRows(grid));
      RowsAreLines(grid[1..], cols);
      RowIsOneLine(grid[0]);
      assert EscapeRows(grid)[1..] == EscapeRows(grid[1..]);
      assert rows[1..] == PrintRows(EscapeRows(grid[1..]));
    }
  }

  lemma EscapedDashes(cols: nat)
    ensures EscapeAll(Dashes(cols)) == Dashes(cols) && OneLine(Dashes(cols))
  {
    EscapeAllItems(Dashes(cols));
    assert "---"[1..] == "--" && "--"[1..] == "-" && "-"[1..] == "";
    assert Escape("-") == "-" && Escape("--") == "--" && Escape("---") == "---";
    assert IsStripped("---") && '\n' !in "---";
  }

  lemma LinesOfGrid(grid: Grid, cols: nat)
    requires grid != []
    ensures PrintLines(EscapeRows(grid), cols)
         == [PrintRow(EscapeAll(grid[0])), PrintRow(EscapeAll(Dashes(cols)))] + PrintRows(EscapeRows(grid[1..]))
  {
    assert EscapeRows(grid)[1..] == EscapeRows(grid[1..]) && EscapeRows(grid)[0] == EscapeAll(grid[0]);
    EscapedDashes(cols);
  }

  lemma GridLines(grid: Grid, cols: nat)
    requires grid != [] && Rectangular(grid, cols)
    ensures forall i :: 0 <= i < |PrintLines(EscapeRows(grid), cols)| ==> '\n' !in PrintLines(EscapeRows(grid), cols)[i]
  {
    LinesOfGrid(grid, cols);
    EscapedDashes(cols);
    RowIsOneLine(grid[0]);
    RowIsOneLine(Dashes(cols));
    RowsAreLines(grid[1..], cols);
  }

  lemma LinesRoundTrip(grid: Grid, cols: nat)
    requires cols > 0 && grid != [] && Rectangular(grid, cols)
    ensures var lines := PrintLines(EscapeRows(grid), cols);
            |lines| >= 2 && ParseLines(lines) == grid && ParseRow(lines[1]) == Dashes(cols)
  {
    var lines := PrintLines(EscapeRows(grid), cols);
    LinesOfGrid(grid, cols);
    assert lines[2..] == PrintRows(EscapeRows(grid[1..]));
    RowsRoundTrip(grid[1..], cols);
    RowRoundTrip(grid[0]);
    EscapedDashes(cols);
    RowRoundTrip(Dashes(cols));
  }

  lemma GridRoundTrip(grid: Grid, cols: nat)
    requires cols > 0 && grid != [] && Rectangular(grid, cols)
    ensures Parse(Join(PrintLines(EscapeRows(grid), cols), "\n")) == grid
    ensures ParseDelimiters(Join(PrintLines(EscapeRows(grid), cols), "\n")) == Dashes(cols)
  {
    LinesRoundTrip(grid, cols);
    GridLines(grid, cols);
    SplitJoin(PrintLines(EscapeRows(grid), cols), '\n');
  }

  /** The dimensions a table is printed with are both positive. */
  predicate Printable(t: Table) {
    t.cells != [] && Dimensions(t).0 > 0 && Dimensions(t).1 > 0
  }

  /** What a reader is meant to see: for each position the text of the last cell that starts
      there, on one line and trimmed. */
  function PlainGrid(t: Table): Grid
    requires Printable(t)
  {
    Texts(t.cells, Dimensions(t).0, Dimensions(t).1, Plain)
  }

  lemma StripKeepsLine(s: string)
    requires '\n' !in s
    ensures '\n' !in Strip(s)
  {
    LStripKeepsLine(s);
  }

  lemma {:induction false} LStripKeepsLine(s: string)
    requires '\n' !in s
    ensures '\n' !in LStrip(s)
  {
    if s != "" && IsSpace(s[0]) {
      LStripKeepsLine(s[1..]);
    }
  }

  lemma {:induction false} EscapeRowsItems(grid: Grid)
    ensures |EscapeRows(grid)| == |grid|
    ensures forall r :: 0 <= r < |grid| ==> EscapeRows(grid)[r] == EscapeAll(grid[r])
  {
    if grid != [] {
      EscapeRowsItems(grid[1..]);
    }
  }

  lemma PlainGridFacts(t: Table)
    requires Printable(t)
    ensures Rectangular(PlainGrid(t), Dimensions(t).1)
    ensures EscapeRows(PlainGrid(t)) == Texts(t.cells, Dimensions(t).0, Dimensions(t).1, CellText)
  {
    var (rows, cols) := Dimensions(t);
    var grid := PlainGrid(t);
    var texts := Texts(t.cells, rows, cols, CellText);
    EscapeRowsItems(grid);
    forall r | 0 <= r < rows ensures OneLine(grid[r]) && EscapeRows(grid)[r] == texts[r] {
      EscapeAllItems(grid[r]);
      forall c | 0 <= c < cols ensures IsStripped(grid[r][c]) && '\n' !in grid[r][c] && EscapeAll(grid[r])[c] == texts[r][c] {
        var text := CellAt(t.cells, r, c);
        CellTextIsEscapedPlain(text);
        if text.Some? {
          StripKeepsLine(Flatten(text.value));
        }
      }
    }
  }

  // ---------------------------------------------------------------- main results

  /** Parsing the printed Markdown gives back exactly the rows and columns of the table,
      each cell with its plain text; the delimiter row has one entry for each column. */
  lemma TableRoundTrip(t: Table)
    requires Printable(t)
    ensures Parse(Print(Some(t))) == PlainGrid(t)
    ensures ParseDelimiters(Print(Some(t))) == Dashes(Dimensions(t).1)
  {
    PlainGridFacts(t);
    GridRoundTrip(PlainGrid(t), Dimensions(t).1);
  }

  /** Two tables print the same Markdown exactly when they show the same grid. */
  lemma PrintingIsInjective(t: Table, u: Table)
    requires Printable(t) && Printable(u)
    ensures Print(Some(t)) == Print(Some(u)) <==> PlainGrid(t) == PlainGrid(u)
  {
    TableRoundTrip(t);
    TableRoundTrip(u);
    PlainGridFacts(t);
    PlainGridFacts(u);
    if PlainGrid(t) == PlainGrid(u) {
      assert |PlainGrid(t)| == Dimensions(t).0 && |PlainGrid(t)[0]| == Dimensions(t).1;
      assert |PlainGrid(u)| == Dimensions(u).0 && |PlainGrid(u)[0]| == Dimensions(u).1;
    }
  }

  // ---------------------------------------------------------------- from the cell list alone

  /** Cell i is the last that starts where it does. */
  ghost predicate IsLastAt(cells: seq<Cell>, i: int) {
    && 0 <= i < |cells|
    && forall j :: i < j < |cells| ==> !(cells[j].startRow == cells[i].startRow && cells[j].startCol == cells[i].startCol)
  }

  predicate StartsNowhere(cells: seq<Cell>, row: int, col: int) {
    forall j :: 0 <= j < |cells| ==> !(cells[j].startRow == row && cells[j].startCol == col)
  }

  lemma {:induction false} LastCellIsAt(cells: seq<Cell>, i: int)
    requires IsLastAt(cells, i)
    ensures CellAt(cells, cells[i].startRow, cells[i].startCol) == cells[i].text
  {
    if i < |cells| - 1 {
      var init := cells[..|cells| - 1];
      assert init[i] == cells[i];
      LastCellIsAt(init, i);
    }
  }

  lemma {:induction false} NoCellAt(cells: seq<Cell>, row: int, col: int)
    requires StartsNowhere(cells, row, col)
    ensures CellAt(cells, row, col) == None
  {
    if cells != [] {
      NoCellAt(cells[..|cells| - 1], row, col);
    }
  }

  /** The parsed output has the table's rows and columns, and a delimiter row of as many
      hyphen cells. */
  lemma ShapeIsShown(t: Table)
    requires Printable(t)
    ensures var (rows, cols) := Dimensions(t);
            var grid, delimiters := Parse(Print(Some(t))), ParseDelimiters(Print(Some(t)));
            && |grid| == rows && (forall r :: 0 <= r < rows ==> |grid[r]| == cols)
            && |delimiters| == cols && (forall c :: 0 <= c < cols ==> delimiters[c] == "---")
  {
    TableRoundTrip(t);
  }

  /** The last cell that starts at a position inside the table is read back there, in its row
      and its column. */
  lemma CellIsShown(t: Table, i: int)
    requires Printable(t) && IsLastAt(t.cells, i)
    requires 0 <= t.cells[i].startRow < Dimensions(t).0 && 0 <= t.cells[i].startCol < Dimensions(t).1
    ensures var grid := Parse(Print(Some(t)));
            && t.cells[i].startRow < |grid| && t.cells[i].startCol < |grid[t.cells[i].startRow]|
            && grid[t.cells[i].startRow][t.cells[i].startCol] == Plain(t.cells[i].text)
  {
    TableRoundTrip(t);
    LastCellIsAt(t.cells, i);
  }

  /** A position where no cell starts is read back as empty. */
  lemma NothingElseIsShown(t: Table, row: nat, col: nat)
    requires Printable(t) && StartsNowhere(t.cells, row, col)
    requires row < Dimensions(t).0 && col < Dimensions(t).1
    ensures var grid := Parse(Print(Some(t)));
            row < |grid| && col < |grid[row]| && grid[row][col] == ""
  {
    TableRoundTrip(t);
    NoCellAt(t.cells, row, col);
    assert PlainGrid(t)[row][col] == Plain(None);
  }

  lemma {:induction false} ExtentOfCells(cells: seq<Cell>, rows: int, cols: int)
    ensures var r, c := MaxEndRow(cells, rows), MaxEndCol(cells, cols);
            && r >= rows && c >= cols
            && (forall i :: 0 <= i < |cells| ==> cells[i].endRow <= r && cells[i].endCol <= c)
            && (r == rows || exists i :: 0 <= i < |cells| && cells[i].endRow == r)
            && (c == cols || exists i :: 0 <= i < |cells| && cells[i].endCol == c)
  {
    if cells != [] {
      var init, last := cells[..|cells| - 1], |cells| - 1;
      ExtentOfCells(init, rows, cols);
      assert forall i :: 0 <= i < last ==> init[i] == cells[i];
      assert cells[last].endRow <= MaxEndRow(cells, rows);
    }
  }

  /** The dimensions are the declared ones; if one is missing, both are at least the declared
      ones and all cell ends, and each is one of these. */
  lemma DimensionsAreExtent(t: Table)
    ensures var (rows, cols) := Dimensions(t);
            if t.numRows != 0 && t.numCols != 0 then rows == t.numRows && cols == t.numCols
            else
              && rows >= t.numRows && cols >= t.numCols
              && (forall i :: 0 <= i < |t.cells| ==> t.cells[i].endRow <= rows && t.cells[i].endCol <= cols)
              && (rows == t.numRows || exists i :: 0 <= i < |t.cells| && t.cells[i].endRow == rows)
              && (cols == t.numCols || exists i :: 0 <= i < |t.cells| && t.cells[i].endCol == cols)
  {
    ExtentOfCells(t.cells, t.numRows, t.numCols);
  }

  /** Nothing is printed exactly when there is no table, or it has no cells, no columns, or not
      even one row. */
  lemma NothingPrintedIff(table: Option<Table>)
    ensures Print(table) == "" <==>
              table.None? || table.value.cells == [] || Dimensions(table.value).0 <= 0 || Dimensions(table.value).1 == 0
  {
    if table.Some? {
      var (rows, cols) := Dimensions(table.value);
      var grid := Texts(table.value.cells, Max(rows, 0), Max(cols, 0), CellText);
      if grid != [] {
        LinesAreNotBlank(grid, Max(cols, 0));
      }
    }
  }

  lemma LinesAreNotBlank(grid: Grid, cols: nat)
    requires grid != []
    ensures Join(PrintLines(grid, cols), "\n") != ""
  {
    assert |PrintLines(grid, cols)| > 1 && PrintLines(grid, cols)[0] == PrintRow(grid[0]) != "";
  }
}
