/**
  Reading a printed table back. The rule line gives the column widths, the widths
  cut every line into cells, and trimming the blanks gives the texts.
*/
module TableDecode {
  import opened Strings
  import opened Sums
  import opened TableWidths
  import opened TableLayout
  import opened TableText

  datatype Contents = Contents(header: seq<string>, rows: seq<seq<string>>)

  // ----- the reader -----

  /** The length of the longest prefix of `s` made of `ch`. */
  function RunLength(s: string, ch: char): (n: nat)
    ensures n <= |s| && (forall i :: 0 <= i < n ==> s[i] == ch) && (n < |s| ==> s[n] != ch)
  {
    if s == "" || s[0] != ch then 0 else 1 + RunLength(s[1..], ch)
  }

  function SplitLines(text: string): seq<string>
    decreases |text|
  {
    var n := Find(text, '\n');
    if n == |text| then [] else [text[..n]] + SplitLines(text[n + 1..])
  }

  function RuleWidths(rule: string): seq<nat>
    decreases |rule|
  {
    var n := RunLength(rule, '-');
    if n + GAP <= |rule| then [n] + RuleWidths(rule[n + GAP..]) else [n]
  }

  function Cut(line: string, widths: seq<nat>): (cells: seq<string>)
    decreases |widths|
  {
    if |widths| <= 1 || |line| < widths[0] + GAP then [line]
    else [line[..widths[0]]] + Cut(line[widths[0] + GAP..], widths[1..])
  }

  function TrimLeft(s: string): string {
    if s != "" && s[0] == ' ' then TrimLeft(s[1..]) else s
  }

  function TrimRight(s: string): string {
    if s != "" && s[|s| - 1] == ' ' then TrimRight(s[..|s| - 1]) else s
  }

  function Trim(s: string): string { TrimRight(TrimLeft(s)) }

  function TrimAll(cells: seq<string>): (r: seq<string>)
    ensures |r| == |cells|
  {
    seq(|cells|, j requires 0 <= j < |cells| => Trim(cells[j]))
  }

  function CutAll(lines: seq<string>, widths: seq<nat>): (r: seq<seq<string>>)
    ensures |r| == |lines|
  {
    seq(|lines|, i requires 0 <= i < |lines| => TrimAll(Cut(lines[i], widths)))
  }

  function DecodeTable(text: string): Option<Contents> {
    var lines := SplitLines(text);
    if |lines| < 2 then None
    else
      var widths := RuleWidths(lines[1]);
      Some(Contents(TrimAll(Cut(lines[0], widths)), CutAll(lines[2..], widths)))
  }

  // ----- lines, widths and cells are recovered -----

  lemma SplitFirst(line: string, rest: string)
    requires '\n' !in line
    ensures SplitLines(line + "\n" + rest) == [line] + SplitLines(rest)
  {
    var text, n := line + "\n" + rest, |line|;
    assert forall i :: 0 <= i < n ==> text[i] == line[i] && text[i] != '\n';
    assert text[n] == '\n';
    assert Find(text, '\n') == n;
    assert text[..n] == line && text[n + 1..] == rest;
  }

  lemma {:induction false} SplitUnlines(lines: seq<string>)
    requires forall i :: 0 <= i < |lines| ==> '\n' !in lines[i]
    ensures SplitLines(Unlines(lines)) == lines
  {
    if lines != [] {
      SplitFirst(lines[0], Unlines(lines[1..]));
      SplitUnlines(lines[1..]);
    }
  }

  /** The rule line determines the widths, zero widths included. */
  lemma {:induction false} RuleGivesWidths(widths: seq<nat>)
    requires widths != []
    ensures RuleWidths(RowText(RuleCells(widths))) == widths
  {
    var cells, n := RuleCells(widths), widths[0];
    var rule := RowText(cells);
    if |widths| == 1 {
      assert RunLength(rule, '-') == n;
    } else {
      assert cells[1..] == RuleCells(widths[1..]);
      assert rule == cells[0] + Repeat(' ', GAP) + RowText(cells[1..]);
      assert rule[n] == ' ' && forall i :: 0 <= i < n ==> rule[i] == cells[0][i];
      assert RunLength(rule, '-') == n;
      assert rule[n + GAP..] == RowText(cells[1..]);
      RuleGivesWidths(widths[1..]);
    }
  }

  lemma {:induction false} CutRow(cells: seq<string>, widths: seq<nat>)
    requires |cells| == |widths| && cells != []
    requires forall j :: 0 <= j < |cells| ==> |cells[j]| == widths[j]
    ensures Cut(RowText(cells), widths) == cells
  {
    if |cells| > 1 {
      var line, n := RowText(cells), widths[0];
      assert line == cells[0] + Repeat(' ', GAP) + RowText(cells[1..]);
      assert line[..n] == cells[0] && line[n + GAP..] == RowText(cells[1..]);
      CutRow(cells[1..], widths[1..]);
    }
  }

  lemma {:induction false} RowLength(cells: seq<string>, widths: seq<nat>)
    requires |cells| == |widths|
    requires forall j :: 0 <= j < |cells| ==> |cells[j]| == widths[j]
    ensures |RowText(cells)| == LineWidth(widths)
  {
    if |cells| > 1 {
      assert RowText(cells) == cells[0] + Repeat(' ', GAP) + RowText(cells[1..]);
      RowLength(cells[1..], widths[1..]);
    } else if |cells| == 1 {
      assert widths[1..] == [];
    }
  }

  lemma {:induction false} RowOnOneLine(cells: seq<string>)
    requires forall j :: 0 <= j < |cells| ==> '\n' !in cells[j]
    ensures '\n' !in RowText(cells)
  {
    if |cells| > 1 { RowOnOneLine(cells[1..]); }
  }

  // ----- trimming -----

  ghost predicate NoEdgeBlanks(s: string) {
    s != "" ==> s[0] != ' ' && s[|s| - 1] != ' '
  }

  lemma {:induction false} TrimLeftPadded(n: nat, s: string)
    ensures TrimLeft(Repeat(' ', n) + s) == TrimLeft(s)
  {
    if n == 0 {
      assert Repeat(' ', 0) + s == s;
    } else {
      assert (Repeat(' ', n) + s)[1..] == Repeat(' ', n - 1) + s;
      TrimLeftPadded(n - 1, s);
    }
  }

  lemma {:induction false} TrimRightPadded(s: string, n: nat)
    ensures TrimRight(s + Repeat(' ', n)) == TrimRight(s)
  {
    if n == 0 {
      assert s + Repeat(' ', 0) == s;
    } else {
      var padded := s + Repeat(' ', n);
      assert padded[..|padded| - 1] == s + Repeat(' ', n - 1);
      TrimRightPadded(s, n - 1);
    }
  }

  /** Left trimming does not see blanks on the right, unless there is nothing else. */
  lemma {:induction false} TrimLeftThenPad(s: string, n: nat)
    ensures TrimRight(TrimLeft(s + Repeat(' ', n))) == TrimRight(TrimLeft(s))
  {
    if s == "" {
      TrimLeftPadded(n, "");
      assert s + Repeat(' ', n) == Repeat(' ', n) + "";
    } else if s[0] == ' ' {
      assert (s + Repeat(' ', n))[1..] == s[1..] + Repeat(' ', n);
      TrimLeftThenPad(s[1..], n);
    } else {
      TrimRightPadded(s, n);
    }
  }

  lemma {:induction false} TrimLeftShape(s: string)
    ensures |TrimLeft(s)| <= |s| && TrimLeft(s) == s[|s| - |TrimLeft(s)|..]
    ensures TrimLeft(s) != "" ==> TrimLeft(s)[0] != ' '
  {
    if s != "" && s[0] == ' ' { TrimLeftShape(s[1..]); }
  }

  lemma {:induction false} TrimRightShape(s: string)
    ensures |TrimRight(s)| <= |s| && TrimRight(s) <= s
    ensures TrimRight(s) != "" ==> TrimRight(s)[|TrimRight(s)| - 1] != ' '
  {
    if s != "" && s[|s| - 1] == ' ' { TrimRightShape(s[..|s| - 1]); }
  }

  lemma TrimFixed(s: string)
    ensures NoEdgeBlanks(Trim(s)) && |Trim(s)| <= |s|
    ensures NoEdgeBlanks(s) ==> Trim(s) == s
  {
    TrimLeftShape(s);
    TrimRightShape(TrimLeft(s));
  }

  ghost predicate CellKept(value: string, width: nat) {
    |value| <= width && NoEdgeBlanks(value)
  }

  /** Trimming a printed cell gives what it shows, whichever side it is padded on. */
  lemma TrimCell(value: string, width: nat, align: Align)
    ensures Trim(CellText(value, width, align)) == Trim(Shown(value, width))
  {
    var shown := Shown(value, width);
    TrimLeftPadded(width - |shown|, shown);
    TrimLeftThenPad(shown, width - |shown|);
  }

  /** A cell reads back as its value exactly when it was not truncated and has no blank at an edge. */
  lemma CellRoundTrip(value: string, width: nat, align: Align)
    ensures Trim(CellText(value, width, align)) == value <==> CellKept(value, width)
  {
    TrimCell(value, width, align);
    TrimFixed(Shown(value, width));
  }

  // ----- whole tables -----

  ghost predicate OneLineTexts(columns: seq<Column>, grid: seq<seq<string>>)
    requires Rectangular(columns, grid)
  {
    && (forall j :: 0 <= j < |columns| ==> '\n' !in columns[j].HeaderText())
    && forall i, j :: 0 <= i < |grid| && 0 <= j < |columns| ==> '\n' !in grid[i][j]
  }

  ghost predicate AllKept(columns: seq<Column>, grid: seq<seq<string>>, widths: seq<nat>)
    requires Rectangular(columns, grid) && |columns| == |widths|
  {
    && (forall j :: 0 <= j < |columns| ==> CellKept(columns[j].HeaderText(), widths[j]))
    && forall i, j :: 0 <= i < |grid| && 0 <= j < |columns| ==> CellKept(grid[i][j], widths[j])
  }

  function Headers(columns: seq<Column>): (r: seq<string>)
    ensures |r| == |columns|
  {
    seq(|columns|, j requires 0 <= j < |columns| => columns[j].HeaderText())
  }

  /** Every line of the table has the width of the rule and no newline inside. */
  lemma LinesAreUniform(columns: seq<Column>, grid: seq<seq<string>>, widths: seq<nat>, i: nat)
    requires Rectangular(columns, grid) && |columns| == |widths| && OneLineTexts(columns, grid)
    requires i < |TableLines(columns, grid, widths)|
    ensures |TableLines(columns, grid, widths)[i]| == LineWidth(widths)
    ensures '\n' !in TableLines(columns, grid, widths)[i]
  {
    hide RowText, LineWidth, HeaderCells, RuleCells, RowCells, OneLineTexts;
    if i == 0 {
      HeaderLineIsUniform(columns, grid, widths);
    } else if i == 1 {
      RuleLineIsUniform(widths);
    } else {
      BodyLineIsUniform(columns, grid, widths, i - 2);
    }
  }

  lemma HeaderLineIsUniform(columns: seq<Column>, grid: seq<seq<string>>, widths: seq<nat>)
    requires Rectangular(columns, grid) && |columns| == |widths| && OneLineTexts(columns, grid)
    ensures |RowText(HeaderCells(columns, widths))| == LineWidth(widths)
    ensures '\n' !in RowText(HeaderCells(columns, widths))
  {
    hide RowText, LineWidth;
    var cells := HeaderCells(columns, widths);
    forall j | 0 <= j < |columns| ensures '\n' !in cells[j] { assert '\n' !in columns[j].HeaderText(); }
    RowLength(cells, widths);
    RowOnOneLine(cells);
  }

  lemma RuleLineIsUniform(widths: seq<nat>)
    ensures |RowText(RuleCells(widths))| == LineWidth(widths) && '\n' !in RowText(RuleCells(widths))
  {
    hide RowText, LineWidth;
    RowLength(RuleCells(widths), widths);
    RowOnOneLine(RuleCells(widths));
  }

  lemma BodyLineIsUniform(columns: seq<Column>, grid: seq<seq<string>>, widths: seq<nat>, i: nat)
    requires Rectangular(columns, grid) && |columns| == |widths| && OneLineTexts(columns, grid) && i < |grid|
    ensures |BodyLines(columns, grid, widths)[i]| == LineWidth(widths)
    ensures '\n' !in BodyLines(columns, grid, widths)[i]
  {
    hide RowText, LineWidth;
    var cells := RowCells(columns, grid[i], widths);
    forall j | 0 <= j < |columns| ensures '\n' !in cells[j] { assert '\n' !in grid[i][j]; }
    RowLength(cells, widths);
    RowOnOneLine(cells);
  }

  /** The text splits into its lines, all equally long. */
  lemma PrintedLines(columns: seq<Column>, grid: seq<seq<string>>, widths: seq<nat>)
    requires Rectangular(columns, grid) && |columns| == |widths| && OneLineTexts(columns, grid)
    ensures SplitLines(Unlines(TableLines(columns, grid, widths))) == TableLines(columns, grid, widths)
    ensures forall i :: 0 <= i < |TableLines(columns, grid, widths)| ==>
      |TableLines(columns, grid, widths)[i]| == LineWidth(widths)
  {
    var lines := TableLines(columns, grid, widths);
    forall i | 0 <= i < |lines| ensures |lines[i]| == LineWidth(widths) && '\n' !in lines[i] {
      LinesAreUniform(columns, grid, widths, i);
    }
    SplitUnlines(lines);
  }

  /**
    Every line of the rendered text is equally long: as long as the widest texts ask for if that
    fits the terminal, and otherwise as long as the terminal is wide or the floors allow.
  */
  lemma LinesFillTerminal(columns: seq<Column>, grid: seq<seq<string>>, available: nat, i: nat)
    requires Rectangular(columns, grid) && OneLineTexts(columns, grid)
    requires LineWidth(NaturalWidths(columns, grid)) < SIZE_MOD
    requires i < |SplitLines(Unlines(TableLines(columns, grid, FinalWidths(columns, grid, available))))|
    ensures var natural := NaturalWidths(columns, grid);
      |SplitLines(Unlines(TableLines(columns, grid, FinalWidths(columns, grid, available))))[i]|
      == if LineWidth(natural) <= available then LineWidth(natural)
         else Max(available, Gaps(|columns|) + Sum(Floors(columns, natural)))
  {
    hide SplitLines, Unlines, TableLines, NaturalWidths, FinalWidths, LineWidth, Floors;
    PrintedLines(columns, grid, FinalWidths(columns, grid, available));
    FinalLineWidth(columns, grid, available);
  }

  /** Reading a table of any widths back gives the trimmed visible part of every text. */
  lemma DecodePrinted(columns: seq<Column>, grid: seq<seq<string>>, widths: seq<nat>)
    requires columns != [] && Rectangular(columns, grid) && |columns| == |widths| && OneLineTexts(columns, grid)
    ensures var read := DecodeTable(Unlines(TableLines(columns, grid, widths)));
      && read.Some?
      && read.value.header == TrimAll(HeaderCells(columns, widths))
      && |read.value.rows| == |grid|
      && forall i :: 0 <= i < |grid| ==> read.value.rows[i] == TrimAll(RowCells(columns, grid[i], widths))
  {
    var lines := TableLines(columns, grid, widths);
    PrintedLines(columns, grid, widths);
    RuleGivesWidths(widths);
    CutRow(HeaderCells(columns, widths), widths);
    forall i | 0 <= i < |grid|
      ensures Cut(lines[2..][i], widths) == RowCells(columns, grid[i], widths)
    {
      CutRow(RowCells(columns, grid[i], widths), widths);
    }
  }

  lemma KeptReadsBack(columns: seq<Column>, grid: seq<seq<string>>, widths: seq<nat>)
    requires columns != [] && Rectangular(columns, grid) && |columns| == |widths| && OneLineTexts(columns, grid)
    ensures DecodeTable(Unlines(TableLines(columns, grid, widths))) == Some(Contents(Headers(columns), grid))
       <==> AllKept(columns, grid, widths)
  {
    DecodePrinted(columns, grid, widths);
    var read := DecodeTable(Unlines(TableLines(columns, grid, widths))).value;
    forall j | 0 <= j < |columns|
      ensures read.header[j] == columns[j].HeaderText() <==> CellKept(columns[j].HeaderText(), widths[j])
    {
      CellRoundTrip(columns[j].HeaderText(), widths[j], AlignLeft);
    }
    forall i, j | 0 <= i < |grid| && 0 <= j < |columns|
      ensures read.rows[i][j] == grid[i][j] <==> CellKept(grid[i][j], widths[j])
    {
      CellRoundTrip(grid[i][j], widths[j], columns[j].align);
    }
    if AllKept(columns, grid, widths) {
      forall i | 0 <= i < |grid| ensures read.rows[i] == grid[i] {
        assert forall j :: 0 <= j < |columns| ==> read.rows[i][j] == grid[i][j];
      }
      assert read.header == Headers(columns) && read.rows == grid;
    }
    if read == Contents(Headers(columns), grid) {
      assert forall j :: 0 <= j < |columns| ==> read.header[j] == columns[j].HeaderText();
      assert forall i, j :: 0 <= i < |grid| && 0 <= j < |columns| ==> read.rows[i][j] == grid[i][j];
    }
  }

  // ----- what is read never holds a newline -----

  lemma {:induction false} SplitOneLine(text: string, i: nat)
    requires i < |SplitLines(text)|
    ensures '\n' !in SplitLines(text)[i]
    decreases |text|
  {
    var n := Find(text, '\n');
    if i > 0 { SplitOneLine(text[n + 1..], i - 1); }
  }

  lemma {:induction false} CutOneLine(line: string, widths: seq<nat>, j: nat)
    requires '\n' !in line && j < |Cut(line, widths)|
    ensures '\n' !in Cut(line, widths)[j]
    decreases |widths|
  {
    if j > 0 { CutOneLine(line[widths[0] + GAP..], widths[1..], j - 1); }
  }

  lemma TrimOneLine(s: string)
    requires '\n' !in s
    ensures '\n' !in Trim(s)
  {
    TrimLeftShape(s);
    TrimRightShape(TrimLeft(s));
  }

  lemma CellsOneLine(line: string, widths: seq<nat>, j: nat)
    requires '\n' !in line && j < |Cut(line, widths)|
    ensures '\n' !in TrimAll(Cut(line, widths))[j]
  {
    hide Cut, Trim;
    CutOneLine(line, widths, j);
    TrimOneLine(Cut(line, widths)[j]);
  }

  lemma DecodedOneLine(text: string)
    requires DecodeTable(text).Some?
    ensures var read := DecodeTable(text).value;
      && (forall j :: 0 <= j < |read.header| ==> '\n' !in read.header[j])
      && forall i, j :: 0 <= i < |read.rows| && 0 <= j < |read.rows[i]| ==> '\n' !in read.rows[i][j]
  {
    hide SplitLines, Cut, RuleWidths, Trim;
    var lines, read := SplitLines(text), DecodeTable(text).value;
    var widths := RuleWidths(lines[1]);
    SplitOneLine(text, 0);
    forall j | 0 <= j < |read.header| ensures '\n' !in read.header[j] { CellsOneLine(lines[0], widths, j); }
    forall i, j | 0 <= i < |read.rows| && 0 <= j < |read.rows[i]| ensures '\n' !in read.rows[i][j] {
      SplitOneLine(text, i + 2);
      CellsOneLine(lines[i + 2], widths, j);
    }
  }

  /**
    A printed table reads back as what was stored exactly when no text was cut, has a blank at an
    edge, or holds a newline.
  */
  lemma TableRoundTrip(columns: seq<Column>, grid: seq<seq<string>>, widths: seq<nat>)
    requires columns != [] && Rectangular(columns, grid) && |columns| == |widths|
    ensures DecodeTable(Unlines(TableLines(columns, grid, widths))) == Some(Contents(Headers(columns), grid))
       <==> AllKept(columns, grid, widths) && OneLineTexts(columns, grid)
  {
    hide DecodeTable, TableLines, Unlines, AllKept;
    var text := Unlines(TableLines(columns, grid, widths));
    if DecodeTable(text) == Some(Contents(Headers(columns), grid)) {
      DecodedOneLine(text);
      forall j | 0 <= j < |columns| ensures '\n' !in columns[j].HeaderText() {
        assert '\n' !in Headers(columns)[j];
      }
    }
    if OneLineTexts(columns, grid) { KeptReadsBack(columns, grid, widths); }
  }

  /** One column with a newline in its header, wide enough for it: nothing is cut, and the header is not read back. */
  lemma NewlineExample()
    ensures var columns := [Column(Some("a\nb"), 0, 0, false, AlignLeft)];
      && AllKept(columns, [], [3])
      && DecodeTable(Unlines(TableLines(columns, [], [3]))) != Some(Contents(Headers(columns), []))
  {
    var columns := [Column(Some("a\nb"), 0, 0, false, AlignLeft)];
    TableRoundTrip(columns, [], [3]);
    assert columns[0].HeaderText()[1] == '\n';
  }

  ghost predicate NoTextHasEdgeBlanks(columns: seq<Column>, grid: seq<seq<string>>)
    requires Rectangular(columns, grid)
  {
    && (forall j :: 0 <= j < |columns| ==> NoEdgeBlanks(columns[j].HeaderText()))
    && forall i, j :: 0 <= i < |grid| && 0 <= j < |columns| ==> NoEdgeBlanks(grid[i][j])
  }

  lemma KeptIsWholeAndTrimmed(columns: seq<Column>, grid: seq<seq<string>>, widths: seq<nat>)
    requires Rectangular(columns, grid) && |columns| == |widths|
    ensures AllKept(columns, grid, widths)
       <==> NothingTruncated(columns, grid, widths) && NoTextHasEdgeBlanks(columns, grid)
  {
    hide NoEdgeBlanks;
    if AllKept(columns, grid, widths) {
      forall j | 0 <= j < |columns| ensures NoEdgeBlanks(columns[j].HeaderText()) {
        assert CellKept(columns[j].HeaderText(), widths[j]);
      }
      forall i, j | 0 <= i < |grid| && 0 <= j < |columns| ensures NoEdgeBlanks(grid[i][j]) {
        assert CellKept(grid[i][j], widths[j]);
      }
    }
  }

  /**
    On a terminal wide enough for the table, the printed text reads back as the stored texts exactly
    when no column maximum cuts one of them and none has a blank at an edge or holds a newline.
  */
  lemma FittingTableRoundTrip(columns: seq<Column>, grid: seq<seq<string>>, available: nat)
    requires columns != [] && Rectangular(columns, grid)
    requires LineWidth(NaturalWidths(columns, grid)) <= available < SIZE_MOD
    ensures DecodeTable(Unlines(TableLines(columns, grid, FinalWidths(columns, grid, available))))
            == Some(Contents(Headers(columns), grid))
       <==> NoMaximumCuts(columns, grid) && NoTextHasEdgeBlanks(columns, grid) && OneLineTexts(columns, grid)
  {
    hide DecodeTable, Unlines, TableLines, FinalWidths, NaturalWidths, LineWidth, NoMaximumCuts, OneLineTexts;
    var widths := FinalWidths(columns, grid, available);
    FittingTableKeepsText(columns, grid, available);
    TableRoundTrip(columns, grid, widths);
    KeptIsWholeAndTrimmed(columns, grid, widths);
  }
}
