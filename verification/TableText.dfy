/** Printing in common/table.c: cells, lines and the whole table, on an output stream. */
module TableText {
  import opened Strings
  import opened Sums
  import opened TableWidths
  import opened TableLayout

  /** An output stream that keeps everything written to it; write errors are ignored, as in the source. */
  class Stream {
    var text: string

    constructor ()
      ensures text == ""
    {
      text := "";
    }

    method Put(ch: char)
      modifies this
      ensures text == old(text) + [ch]
    {
      text := text + [ch];
    }

    method Write(s: string)
      modifies this
      ensures text == old(text) + s
    {
      text := text + s;
    }
  }

  // ----- what is printed -----

  /** The part of a value that a cell shows. */
  function Shown(value: string, width: nat): (s: string)
    ensures |s| == Min(|value|, width)
  {
    if |value| <= width then value
    else if width > 3 then value[..width - 3] + "..."
    else value[..width]
  }

  function CellText(value: string, width: nat, align: Align): (s: string)
    ensures |s| == width
  {
    var shown := Shown(value, width);
    if align == AlignRight then Repeat(' ', width - |shown|) + shown else shown + Repeat(' ', width - |shown|)
  }

  ghost predicate AllBlank(s: string) { forall i :: 0 <= i < |s| ==> s[i] == ' ' }

  /**
    What a reader sees in a cell: a value that fits stands on its side with blanks beside it; of a
    longer one there is the beginning, ending in three dots when there is room for more than those.
  */
  ghost predicate Displays(cell: string, value: string, width: nat, align: Align) {
    && |cell| == width
    && (|value| <= width && align == AlignLeft ==> value <= cell && AllBlank(cell[|value|..]))
    && (|value| <= width && align == AlignRight ==>
          cell[width - |value|..] == value && AllBlank(cell[..width - |value|]))
    && (|value| > width > 3 ==> cell == value[..width - 3] + "...")
    && (|value| > width && width <= 3 ==> cell == value[..width])
  }

  lemma CellDisplays(value: string, width: nat, align: Align)
    ensures Displays(CellText(value, width, align), value, width, align)
  {
    var shown, cell := Shown(value, width), CellText(value, width, align);
    if |value| <= width {
      assert align == AlignLeft ==> cell[..|value|] == value;
    } else {
      assert Repeat(' ', 0) == "" && cell == shown;
    }
  }

  /** Cells side by side with a gap of two blanks between neighbours. */
  function RowText(cells: seq<string>): string {
    if cells == [] then ""
    else if |cells| == 1 then cells[0]
    else cells[0] + Repeat(' ', GAP) + RowText(cells[1..])
  }

  function HeaderCells(columns: seq<Column>, widths: seq<nat>): (r: seq<string>)
    requires |columns| == |widths|
    ensures |r| == |columns|
  {
    seq(|columns|, j requires 0 <= j < |columns| => CellText(columns[j].HeaderText(), widths[j], AlignLeft))
  }

  function RuleCells(widths: seq<nat>): (r: seq<string>)
    ensures |r| == |widths|
  {
    seq(|widths|, j requires 0 <= j < |widths| => Repeat('-', widths[j]))
  }

  function RowCells(columns: seq<Column>, row: seq<string>, widths: seq<nat>): (r: seq<string>)
    requires |columns| == |widths| == |row|
    ensures |r| == |columns|
  {
    seq(|columns|, j requires 0 <= j < |columns| => CellText(row[j], widths[j], columns[j].align))
  }

  function BodyLines(columns: seq<Column>, grid: seq<seq<string>>, widths: seq<nat>): (r: seq<string>)
    requires |columns| == |widths| && Rectangular(columns, grid)
    ensures |r| == |grid|
  {
    seq(|grid|, i requires 0 <= i < |grid| => RowText(RowCells(columns, grid[i], widths)))
  }

  function TableLines(columns: seq<Column>, grid: seq<seq<string>>, widths: seq<nat>): seq<string>
    requires |columns| == |widths| && Rectangular(columns, grid)
  {
    [RowText(HeaderCells(columns, widths)), RowText(RuleCells(widths))] + BodyLines(columns, grid, widths)
  }

  // ----- printing it -----

  /** Lines 88-95. */
  method PrintRepeated(out: Stream, ch: char, count: nat)
    modifies out
    ensures out.text == old(out.text) + Repeat(ch, count)
  {
    var i := 0;
    while i < count
      invariant i <= count && out.text == old(out.text) + Repeat(ch, i)
    {
      out.Put(ch);
      assert Repeat(ch, i) + [ch] == Repeat(ch, i + 1);
      i := i + 1;
    }
  }

  lemma CellParts(before: string, value: string, width: nat, align: Align, leftPad: nat, rightPad: nat)
    requires leftPad == if align == AlignRight && |value| < width then width - |value| else 0
    requires rightPad == if align == AlignLeft && |value| < width then width - |value| else 0
    ensures before + Repeat(' ', leftPad) + Shown(value, width) + Repeat(' ', rightPad)
         == before + CellText(value, width, align)
  {
    assert Repeat(' ', leftPad) + Shown(value, width) + Repeat(' ', rightPad) == CellText(value, width, align);
  }

  /** Lines 97-127. */
  method PrintCell(out: Stream, value: string, width: nat, align: Align)
    modifies out
    ensures out.text == old(out.text) + CellText(value, width, align)
    ensures Displays(CellText(value, width, align), value, width, align)
  {
    hide Displays, CellText;
    CellDisplays(value, width, align);
    var shownLen := |value|;
    var leftPad, rightPad := 0, 0;
    if shownLen > width {
      shownLen := width;
    }
    if align == AlignRight && width > shownLen {
      leftPad := width - shownLen;
    } else if width > shownLen {
      rightPad := width - shownLen;
    }
    PrintRepeated(out, ' ', leftPad);
    if |value| > width && width > 3 {
      out.Write(value[..width - 3]);
      out.Write("...");
    } else if |value| > width {
      out.Write(value[..width]);
    } else {
      out.Write(value[..shownLen]);
    }
    assert out.text == old(out.text) + Repeat(' ', leftPad) + Shown(value, width);
    PrintRepeated(out, ' ', rightPad);
    CellParts(old(out.text), value, width, align, leftPad, rightPad);
  }

  /** Printing cell `j` and its gap moves that much of the row from the future to the stream. */
  lemma RowAdvance(cells: seq<string>, j: nat, before: string)
    requires j < |cells|
    ensures before + RowText(cells[j..])
         == before + cells[j] + (if j + 1 < |cells| then Repeat(' ', GAP) else "") + RowText(cells[j + 1..])
  {
    assert cells[j..][1..] == cells[j + 1..];
    if j + 1 < |cells| {
      assert before + (cells[j] + Repeat(' ', GAP) + RowText(cells[j + 1..]))
          == before + cells[j] + Repeat(' ', GAP) + RowText(cells[j + 1..]);
    }
  }

  /** Lines 281-288. */
  method PrintHeader(out: Stream, columns: seq<Column>, widths: array<nat>)
    requires |columns| == widths.Length
    modifies out
    ensures out.text == old(out.text) + RowText(HeaderCells(columns, widths[..])) + "\n"
  {
    ghost var cells := HeaderCells(columns, widths[..]);
    assert cells[0..] == cells;
    var j := 0;
    while j < |columns|
      invariant j <= |columns| && out.text + RowText(cells[j..]) == old(out.text) + RowText(cells)
    {
      RowAdvance(cells, j, out.text);
      PrintCell(out, columns[j].HeaderText(), widths[j], AlignLeft);
      if j + 1 < |columns| {
        PrintRepeated(out, ' ', GAP);
      }
      j := j + 1;
    }
    out.Put('\n');
  }

  /** Lines 290-296. */
  method PrintRule(out: Stream, widths: array<nat>)
    modifies out
    ensures out.text == old(out.text) + RowText(RuleCells(widths[..])) + "\n"
  {
    ghost var cells := RuleCells(widths[..]);
    assert cells[0..] == cells;
    var j := 0;
    while j < widths.Length
      invariant j <= widths.Length && out.text + RowText(cells[j..]) == old(out.text) + RowText(cells)
    {
      RowAdvance(cells, j, out.text);
      PrintRepeated(out, '-', widths[j]);
      if j + 1 < widths.Length {
        PrintRepeated(out, ' ', GAP);
      }
      j := j + 1;
    }
    out.Put('\n');
  }

  /** Lines 299-306. */
  method PrintRow(out: Stream, columns: seq<Column>, row: seq<string>, widths: array<nat>)
    requires |columns| == widths.Length == |row|
    modifies out
    ensures out.text == old(out.text) + RowText(RowCells(columns, row, widths[..])) + "\n"
  {
    ghost var cells := RowCells(columns, row, widths[..]);
    assert cells[0..] == cells;
    var j := 0;
    while j < |columns|
      invariant j <= |columns| && out.text + RowText(cells[j..]) == old(out.text) + RowText(cells)
    {
      RowAdvance(cells, j, out.text);
      PrintCell(out, row[j], widths[j], columns[j].align);
      if j + 1 < |columns| {
        PrintRepeated(out, ' ', GAP);
      }
      j := j + 1;
    }
    out.Put('\n');
  }

  lemma LinesAdvance(lines: seq<string>, i: nat, before: string)
    requires i < |lines|
    ensures before + Unlines(lines[i..]) == before + lines[i] + "\n" + Unlines(lines[i + 1..])
  {
    assert lines[i..][1..] == lines[i + 1..];
    assert before + (lines[i] + "\n" + Unlines(lines[i + 1..])) == before + lines[i] + "\n" + Unlines(lines[i + 1..]);
  }

  /** Line 298. */
  method PrintRows(out: Stream, columns: seq<Column>, grid: seq<seq<string>>, widths: array<nat>)
    requires |columns| == widths.Length && Rectangular(columns, grid)
    modifies out
    ensures out.text == old(out.text) + Unlines(BodyLines(columns, grid, widths[..]))
  {
    ghost var lines := BodyLines(columns, grid, widths[..]);
    hide RowText, Unlines, RowCells;
    assert lines[0..] == lines;
    var i := 0;
    while i < |grid|
      invariant i <= |grid| && out.text + Unlines(lines[i..]) == old(out.text) + Unlines(lines)
    {
      LinesAdvance(lines, i, out.text);
      PrintRow(out, columns, grid[i], widths);
      i := i + 1;
    }
  }

  /**
    `app_table_render`. `available` is the detected terminal width and `gotMemory` says whether
    the width array could be allocated.
  */
  method Render(out: Stream, columns: seq<Column>, grid: seq<seq<string>>, available: nat, gotMemory: bool)
    requires Rectangular(columns, grid)
    modifies out
    ensures out.text == old(out.text) +
      if columns == [] || !gotMemory then ""
      else Unlines(TableLines(columns, grid, FinalWidths(columns, grid, available)))
  {
    if columns == [] || !gotMemory {
      return;
    }
    hide RowText, Unlines, HeaderCells, RuleCells, BodyLines, NaturalWidths, ShrunkWidths, LineWidth;
    hide Rectangular, FlexFloor, FlexSlack, HardSlack;
    var widths, total := Measure(columns, grid);
    NoExcess(columns, widths[..]);
    if total > available {
      Shrink(columns, widths, total - available);
    }
    ghost var final := FinalWidths(columns, grid, available);
    assert widths[..] == final;
    ghost var lines := TableLines(columns, grid, final);
    assert lines[0..] == lines && lines[2..] == BodyLines(columns, grid, final);
    LinesAdvance(lines, 0, out.text);
    PrintHeader(out, columns, widths);
    LinesAdvance(lines, 1, out.text);
    PrintRule(out, widths);
    PrintRows(out, columns, grid, widths);
  }
}
