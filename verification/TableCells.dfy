/** Where a printed table shows what: every text at its place, on its side of the column. */
module TableCells {
  import opened Strings
  import opened TableText
  import opened TableWidths

  /** Where column `j` starts: behind the columns before it, each followed by two blanks. */
  function Start(widths: seq<nat>, j: nat): nat
    requires j < |widths|
  {
    if j == 0 then 0 else widths[0] + 2 + Start(widths[1..], j - 1)
  }

  ghost predicate HaveWidths(cells: seq<string>, widths: seq<nat>) {
    |cells| == |widths| && forall j :: 0 <= j < |cells| ==> |cells[j]| == widths[j]
  }

  /** `cell` stands in `line` at column `j`, and two blanks separate it from the next one. */
  ghost predicate StandsAt(line: string, widths: seq<nat>, j: nat, cell: string)
    requires j < |widths|
  {
    var start := Start(widths, j);
    var end := start + widths[j];
    && end <= |line| && line[start..end] == cell
    && (j + 1 < |widths| ==> end + 2 <= |line| && line[end..end + 2] == "  ")
    && (j + 1 == |widths| ==> end == |line|)
  }

  lemma {:induction false} CellStandsAt(cells: seq<string>, widths: seq<nat>, j: nat)
    requires HaveWidths(cells, widths) && j < |cells|
    ensures StandsAt(RowText(cells), widths, j, cells[j])
  {
    var line := RowText(cells);
    if |cells| > 1 {
      var first, rest := cells[0] + "  ", RowText(cells[1..]);
      assert Repeat(' ', GAP) == "  ";
      assert line == first + rest;
      if j == 0 {
        assert line[widths[0]..widths[0] + 2] == "  ";
      } else {
        CellStandsAt(cells[1..], widths[1..], j - 1);
        InTail(first, rest, Start(widths[1..], j - 1), widths[j]);
      }
    }
  }

  lemma InTail(first: string, rest: string, start: nat, len: nat)
    requires start + len <= |rest|
    ensures (first + rest)[|first| + start..|first| + start + len] == rest[start..start + len]
    ensures start + len + 2 <= |rest| ==>
      (first + rest)[|first| + start + len..|first| + start + len + 2] == rest[start + len..start + len + 2]
  {
  }

  /** A reader sees `value` in column `j` of the line, on its side. */
  ghost predicate ShowsAt(line: string, widths: seq<nat>, j: nat, value: string, align: Align)
    requires j < |widths|
  {
    exists cell :: StandsAt(line, widths, j, cell) && Displays(cell, value, widths[j], align)
  }

  ghost predicate RuledAt(line: string, widths: seq<nat>, j: nat)
    requires j < |widths|
  {
    exists cell :: StandsAt(line, widths, j, cell)
      && |cell| == widths[j] && forall k :: 0 <= k < |cell| ==> cell[k] == '-'
  }

  lemma RowShows(columns: seq<Column>, row: seq<string>, widths: seq<nat>, j: nat)
    requires j < |columns| == |widths| == |row|
    ensures ShowsAt(RowText(RowCells(columns, row, widths)), widths, j, row[j], columns[j].align)
  {
    hide RowText, StandsAt, Displays, CellText;
    CellStandsAt(RowCells(columns, row, widths), widths, j);
    CellDisplays(row[j], widths[j], columns[j].align);
  }

  lemma HeaderShows(columns: seq<Column>, widths: seq<nat>, j: nat)
    requires j < |columns| == |widths|
    ensures ShowsAt(RowText(HeaderCells(columns, widths)), widths, j, columns[j].HeaderText(), AlignLeft)
  {
    hide RowText, StandsAt, Displays, CellText;
    CellStandsAt(HeaderCells(columns, widths), widths, j);
    CellDisplays(columns[j].HeaderText(), widths[j], AlignLeft);
  }

  /**
    Line 0 shows every header on the left, line 1 rules every column, and line `i + 2` shows the texts
    of row `i`, each on the side its column asks for; a missing header is empty.
  */
  lemma PrintedCells(columns: seq<Column>, grid: seq<seq<string>>, widths: seq<nat>, j: nat)
    requires Rectangular(columns, grid) && j < |columns| == |widths|
    ensures var lines := TableLines(columns, grid, widths);
      var header := if columns[j].header.Some? then columns[j].header.value else "";
      && |lines| == |grid| + 2
      && ShowsAt(lines[0], widths, j, header, AlignLeft) && RuledAt(lines[1], widths, j)
      && forall i :: 0 <= i < |grid| ==> ShowsAt(lines[i + 2], widths, j, grid[i][j], columns[j].align)
  {
    hide RowText, StandsAt, Displays, CellText, RowCells, ShowsAt;
    HeaderShows(columns, widths, j);
    CellStandsAt(RuleCells(widths), widths, j);
    forall i | 0 <= i < |grid|
      ensures ShowsAt(TableLines(columns, grid, widths)[i + 2], widths, j, grid[i][j], columns[j].align)
    {
      RowShows(columns, grid[i], widths, j);
    }
  }
}
