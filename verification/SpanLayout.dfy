/** How the columns of the SPAN listing of boy/commands/span_cmd.c stand on the terminal. */
module SpanLayout {
  import opened SpanListing
  import opened Sums
  import opened TableCells
  import opened TableLayout
  import opened TableText
  import opened TableWidths
  import opened WaterLevel

  /** The index stands on the right of its column and every other text on the left, at any widths. */
  lemma ListingCells(rows: seq<seq<string>>, widths: seq<nat>, i: nat, j: nat)
    requires Rectangular(COLUMNS, rows) && |widths| == |COLUMNS| && i < |rows| && j < 7
    ensures |rows[i]| == 7 && |TableLines(COLUMNS, rows, widths)| == |rows| + 2
    ensures ShowsAt(TableLines(COLUMNS, rows, widths)[i + 2], widths, j, rows[i][j],
                    if j == 1 then AlignRight else AlignLeft)
  {
    hide ShowsAt, TableLines;
    PrintedCells(COLUMNS, rows, widths, j);
  }

  /** The least widths the titles get, and the most that four of the columns take. */
  lemma ListingWidths(rows: seq<seq<string>>)
    requires Rectangular(COLUMNS, rows)
    ensures var w := NaturalWidths(COLUMNS, rows);
      && w[0] >= 14 && 8 <= w[1] <= 10 && 7 <= w[2] <= 12 && w[3] >= 8 && w[4] >= 11
      && 6 <= w[5] <= 8 && 2 <= w[6] <= 8
  {
    hide ContentWidth;
  }

  /**
    On a narrower terminal only name, device type and destination give way, down to 14, 8 and 11
    characters, as long as that is enough.
  */
  lemma ListingShrinks(rows: seq<seq<string>>, available: nat)
    requires Rectangular(COLUMNS, rows)
    requires LineWidth(NaturalWidths(COLUMNS, rows)) < SIZE_MOD
    requires var w := NaturalWidths(COLUMNS, rows);
      14 + w[1] + w[2] + 8 + 11 + w[5] + w[6] + 12 <= available
    ensures var w, final := NaturalWidths(COLUMNS, rows), FinalWidths(COLUMNS, rows, available);
      && final[0] >= 14 && final[1] == w[1] && final[2] == w[2] && final[3] >= 8 && final[4] >= 11
      && final[5] == w[5] && final[6] == w[6]
  {
    hide NaturalWidths, Drain, IsLevel;
    var w := NaturalWidths(COLUMNS, rows);
    ListingWidths(rows);
    var low := FlexFloor(COLUMNS, w);
    assert low == [14, w[1], w[2], 8, 11, w[5], w[6]];
    SumOfSeven(low);
    SumMinus(w, low);
  }

  lemma SumOfSeven(s: seq<nat>)
    requires |s| == 7
    ensures Sum(s) == s[0] + s[1] + s[2] + s[3] + s[4] + s[5] + s[6]
  {
    assert Sum(s) == s[0] + s[1] + Sum(s[1..][1..]);
    var t := s[1..][1..];
    assert Sum(t) == t[0] + t[1] + Sum(t[1..][1..]);
    var u := t[1..][1..];
    assert Sum(u) == u[0] + u[1] + Sum(u[1..][1..]);
    var v := u[1..][1..];
    assert Sum(v) == v[0] + Sum(v[1..]) && v[1..] == [];
  }
}
