/**
  Column widths of common/table.c: measuring, clamping and shrinking to the
  terminal. `ShrunkWidths` states what the shrink loop computes without its
  loop; `Shrink` is the loop.
*/
module TableWidths {
  import opened Sums
  import opened WaterLevel

  const GAP: nat := 2
  const HARD_FLOOR: nat := 3
  const SIZE_MOD: nat := 0x1_0000_0000_0000_0000

  datatype Align = AlignLeft | AlignRight

  /** `header` may be NULL; `maxWidth == 0` means unlimited. */
  datatype Column = Column(header: Option<string>, minWidth: nat, maxWidth: nat, flexible: bool, align: Align) {
    function HeaderText(): string {
      if header.Some? then header.value else ""
    }
  }

  /** Every row has one cell per column. */
  ghost predicate Rectangular(columns: seq<Column>, grid: seq<seq<string>>) {
    forall i :: 0 <= i < |grid| ==> |grid[i]| == |columns|
  }

  // ----- measuring -----

  /** `max_width` wins over `min_width`, so the result can be below `min_width`. */
  function ClampWidth(width: nat, column: Column): (r: nat)
    ensures column.maxWidth != 0 ==> r <= column.maxWidth
    ensures r < column.minWidth <==> 0 < column.maxWidth < column.minWidth
    ensures 0 < column.maxWidth < column.minWidth ==> r == column.maxWidth
    ensures r < width ==> r == column.maxWidth
    ensures r > width ==> r == column.minWidth || r == column.maxWidth < column.minWidth
  {
    var raised := if width < column.minWidth then column.minWidth else width;
    if column.maxWidth != 0 && raised > column.maxWidth then column.maxWidth else raised
  }

  /** The longest text of column `j`, header included. */
  function ContentWidth(column: Column, grid: seq<seq<string>>, j: nat): nat
    requires forall i :: 0 <= i < |grid| ==> j < |grid[i]|
  {
    if grid == [] then |column.HeaderText()|
    else Max(ContentWidth(column, grid[..|grid| - 1], j), |grid[|grid| - 1][j]|)
  }

  /** `n` is the length of some text of column `j`, and no text is longer. */
  ghost predicate IsLongest(column: Column, grid: seq<seq<string>>, j: nat, n: nat)
    requires forall i :: 0 <= i < |grid| ==> j < |grid[i]|
  {
    && |column.HeaderText()| <= n && (forall i :: 0 <= i < |grid| ==> |grid[i][j]| <= n)
    && (n == |column.HeaderText()| || exists i :: 0 <= i < |grid| && n == |grid[i][j]|)
  }

  lemma {:induction false} ContentWidthIsLongest(column: Column, grid: seq<seq<string>>, j: nat)
    requires forall i :: 0 <= i < |grid| ==> j < |grid[i]|
    ensures IsLongest(column, grid, j, ContentWidth(column, grid, j))
  {
    if grid != [] {
      var init := grid[..|grid| - 1];
      ContentWidthIsLongest(column, init, j);
      assert forall i :: 0 <= i < |init| ==> init[i] == grid[i];
    }
  }

  function NaturalWidths(columns: seq<Column>, grid: seq<seq<string>>): (r: seq<nat>)
    requires Rectangular(columns, grid)
    ensures |r| == |columns|
  {
    seq(|columns|, j requires 0 <= j < |columns| => ClampWidth(ContentWidth(columns[j], grid, j), columns[j]))
  }

  /** A column is as wide as its longest text, raised to its minimum and then cut to its maximum. */
  lemma NaturalWidthIs(columns: seq<Column>, grid: seq<seq<string>>, j: nat) returns (longest: nat)
    requires Rectangular(columns, grid) && j < |columns|
    ensures IsLongest(columns[j], grid, j, longest)
    ensures var raised := if longest < columns[j].minWidth then columns[j].minWidth else longest;
      NaturalWidths(columns, grid)[j]
      == if 0 < columns[j].maxWidth < raised then columns[j].maxWidth else raised
  {
    longest := ContentWidth(columns[j], grid, j);
    ContentWidthIsLongest(columns[j], grid, j);
  }

  function Gaps(n: nat): nat { if n > 1 then GAP * (n - 1) else 0 }

  /** The length of a printed line. */
  function LineWidth(widths: seq<nat>): nat { Sum(widths) + Gaps(|widths|) }

  /** What the line is too long by, as computed on 64-bit `size_t`. */
  function Excess(widths: seq<nat>, available: nat): nat {
    var total := LineWidth(widths) % SIZE_MOD;
    if total > available then total - available else 0
  }

  function ContentWidths(columns: seq<Column>, grid: seq<seq<string>>): (r: seq<nat>)
    requires Rectangular(columns, grid)
    ensures |r| == |columns|
  {
    seq(|columns|, j requires 0 <= j < |columns| => ContentWidth(columns[j], grid, j))
  }

  /** Lines 227-238: the longest text of every column. */
  method MeasureContent(columns: seq<Column>, grid: seq<seq<string>>) returns (widths: array<nat>)
    requires Rectangular(columns, grid)
    ensures fresh(widths) && widths.Length == |columns|
    ensures widths[..] == ContentWidths(columns, grid)
  {
    var n := |columns|;
    widths := new nat[n](_ => 0);
    for j := 0 to n
      invariant forall c :: 0 <= c < j ==> widths[c] == |columns[c].HeaderText()|
    {
      widths[j] := |columns[j].HeaderText()|;
    }
    assert grid[..0] == [];
    for i := 0 to |grid|
      invariant widths[..] == ContentWidths(columns, grid[..i])
    {
      ghost var before, after := ContentWidths(columns, grid[..i]), ContentWidths(columns, grid[..i + 1]);
      assert grid[..i + 1][..i] == grid[..i];
      assert forall c :: 0 <= c < n ==> after[c] == Max(before[c], |grid[i][c]|);
      for j := 0 to n
        invariant forall c :: 0 <= c < j ==> widths[c] == after[c]
        invariant forall c :: j <= c < n ==> widths[c] == before[c]
      {
        var len := |grid[i][j]|;
        if len > widths[j] {
          widths[j] := len;
        }
      }
    }
    assert grid[..|grid|] == grid;
  }

  lemma AddWrapped(a: nat, b: nat)
    ensures (a % SIZE_MOD + b) % SIZE_MOD == (a + b) % SIZE_MOD
  {
  }

  /** Lines 227-246: measure, clamp and add up, the sum wrapping at 64 bits. */
  method Measure(columns: seq<Column>, grid: seq<seq<string>>) returns (widths: array<nat>, total: nat)
    requires Rectangular(columns, grid)
    ensures fresh(widths) && widths[..] == NaturalWidths(columns, grid)
    ensures total == LineWidth(widths[..]) % SIZE_MOD
  {
    hide ContentWidth;
    widths := MeasureContent(columns, grid);
    ghost var content, natural := widths[..], NaturalWidths(columns, grid);
    total := 0;
    for j := 0 to |columns|
      invariant forall c :: 0 <= c < j ==> widths[c] == natural[c]
      invariant forall c :: j <= c < |columns| ==> widths[c] == content[c]
      invariant total == Sum(natural[..j]) % SIZE_MOD
    {
      widths[j] := ClampWidth(widths[j], columns[j]);
      SumAppend(natural[..j], natural[j]);
      assert natural[..j + 1] == natural[..j] + [natural[j]];
      AddWrapped(Sum(natural[..j]), natural[j]);
      total := (total + widths[j]) % SIZE_MOD;
    }
    assert widths[..] == natural == natural[..|columns|];
    if |columns| > 1 {
      AddWrapped(Sum(natural), GAP * (|columns| - 1));
      total := (total + GAP * (|columns| - 1)) % SIZE_MOD;
    }
  }

  // ----- shrinking -----

  /** What tier 1 leaves: flexible columns come down to their minimum. */
  function FlexFloor(columns: seq<Column>, widths: seq<nat>): (r: seq<nat>)
    requires |columns| == |widths|
    ensures |r| == |widths| && Below(r, widths)
  {
    seq(|widths|, j requires 0 <= j < |widths| =>
      if columns[j].flexible then Min(widths[j], columns[j].minWidth) else widths[j])
  }

  /** What tier 2 leaves: no column keeps more than three. */
  function HardFloor(widths: seq<nat>): (r: seq<nat>)
    ensures |r| == |widths| && Below(r, widths)
  {
    seq(|widths|, j requires 0 <= j < |widths| => Min(widths[j], HARD_FLOOR))
  }

  function FlexSlack(columns: seq<Column>, widths: seq<nat>): (r: seq<nat>)
    requires |columns| == |widths|
    ensures |r| == |widths| && Below(r, widths)
  {
    Minus(widths, FlexFloor(columns, widths))
  }

  function HardSlack(widths: seq<nat>): (r: seq<nat>)
    ensures |r| == |widths| && Below(r, widths)
  {
    Minus(widths, HardFloor(widths))
  }

  /** The narrowest widths the loop can reach. */
  function Floors(columns: seq<Column>, widths: seq<nat>): (r: seq<nat>)
    requires |columns| == |widths|
    ensures |r| == |widths| && Below(r, widths)
  {
    HardFloor(FlexFloor(columns, widths))
  }

  ghost function ShrunkWidths(columns: seq<Column>, widths: seq<nat>, excess: nat): (r: seq<nat>)
    requires |columns| == |widths|
    ensures |r| == |widths| && Below(r, widths)
  {
    var slack := FlexSlack(columns, widths);
    if excess <= Sum(slack) then Minus(widths, Drain(slack, excess))
    else
      var low := FlexFloor(columns, widths);
      Minus(low, Drain(HardSlack(low), excess - Sum(slack)))
  }

  lemma SlackAt(columns: seq<Column>, widths: seq<nat>, j: nat)
    requires |columns| == |widths| && j < |widths|
    ensures FlexSlack(columns, widths)[j]
         == if columns[j].flexible && widths[j] > columns[j].minWidth then widths[j] - columns[j].minWidth else 0
  {
  }

  lemma HardSlackAt(widths: seq<nat>, j: nat)
    requires j < |widths|
    ensures HardSlack(widths)[j] == if widths[j] > HARD_FLOOR then widths[j] - HARD_FLOOR else 0
  {
  }

  /** Lines 254-263: one round over the flexible columns. */
  method FlexRound(columns: seq<Column>, widths: array<nat>, overflow0: nat, ghost start: seq<nat>, ghost k: nat)
    returns (overflow: nat, reduced: bool, ghost p: nat)
    requires |columns| == |start| == widths.Length
    requires widths[..] == Minus(start, Poured(FlexSlack(columns, start), k, 0))
    modifies widths
    ensures p <= |start| && (p < |start| ==> overflow == 0)
    ensures widths[..] == Minus(start, Poured(FlexSlack(columns, start), k, p))
    ensures overflow + Sum(Poured(FlexSlack(columns, start), k, p))
         == overflow0 + Sum(Poured(FlexSlack(columns, start), k, 0))
    ensures overflow <= overflow0 && (reduced <==> overflow < overflow0)
  {
    ghost var slack := FlexSlack(columns, start);
    hide Poured, Sum, Minus, FlexSlack, HardSlack, FlexFloor, HardFloor;
    overflow, reduced := overflow0, false;
    var j := 0;
    while j < |columns| && overflow > 0
      invariant j <= |columns|
      invariant widths[..] == Minus(start, Poured(slack, k, j))
      invariant overflow + Sum(Poured(slack, k, j)) == overflow0 + Sum(Poured(slack, k, 0))
      invariant overflow <= overflow0 && (reduced <==> overflow < overflow0)
    {
      RemainderVisit(start, slack, k, j);
      SlackAt(columns, start, j);
      assert widths[..][j] == start[j] - Min(slack[j], k);
      if columns[j].flexible && widths[j] > columns[j].minWidth {
        widths[j] := widths[j] - 1;
        overflow := overflow - 1;
        reduced := true;
      }
      j := j + 1;
    }
    p := j;
  }

  /** Lines 266-272: one round over all columns wider than three. */
  method HardRound(widths: array<nat>, overflow0: nat, ghost start: seq<nat>, ghost k: nat)
    returns (overflow: nat, reduced: bool, ghost p: nat)
    requires |start| == widths.Length
    requires widths[..] == Minus(start, Poured(HardSlack(start), k, 0))
    modifies widths
    ensures p <= |start| && (p < |start| ==> overflow == 0)
    ensures widths[..] == Minus(start, Poured(HardSlack(start), k, p))
    ensures overflow + Sum(Poured(HardSlack(start), k, p)) == overflow0 + Sum(Poured(HardSlack(start), k, 0))
    ensures overflow <= overflow0 && (reduced <==> overflow < overflow0)
  {
    ghost var slack := HardSlack(start);
    hide Poured, Sum, Minus, FlexSlack, HardSlack, FlexFloor, HardFloor;
    overflow, reduced := overflow0, false;
    var j := 0;
    while j < widths.Length && overflow > 0
      invariant j <= widths.Length
      invariant widths[..] == Minus(start, Poured(slack, k, j))
      invariant overflow + Sum(Poured(slack, k, j)) == overflow0 + Sum(Poured(slack, k, 0))
      invariant overflow <= overflow0 && (reduced <==> overflow < overflow0)
    {
      RemainderVisit(start, slack, k, j);
      HardSlackAt(start, j);
      assert widths[..][j] == start[j] - Min(slack[j], k);
      if widths[j] > HARD_FLOOR {
        widths[j] := widths[j] - 1;
        overflow := overflow - 1;
        reduced := true;
      }
      j := j + 1;
    }
    p := j;
  }

  /** Once the flexible columns are down, tier 1 finds nothing, whatever tier 2 takes on top. */
  lemma NoFlexSlackLeft(columns: seq<Column>, widths: seq<nat>, lower: seq<nat>)
    requires |columns| == |widths|
    requires Below(lower, FlexFloor(columns, widths))
    ensures forall p: nat :: Poured(FlexSlack(columns, lower), 0, p) == Poured(FlexSlack(columns, lower), 0, 0)
    ensures Minus(lower, Poured(FlexSlack(columns, lower), 0, 0)) == lower
  {
    var low := FlexFloor(columns, widths);
    var slack := FlexSlack(columns, lower);
    forall j | 0 <= j < |lower| ensures slack[j] == 0 { assert lower[j] <= low[j]; }
    assert Minus(lower, Poured(slack, 0, 0)) == lower;
    forall p: nat ensures Poured(slack, 0, p) == Poured(slack, 0, 0) {
      assert forall j :: 0 <= j < |lower| ==> Poured(slack, 0, p)[j] == 0;
    }
  }

  /** What a round over one tier with budget `excess` leaves behind. */
  lemma AfterRound(slack: seq<nat>, k: nat, p: nat, excess: nat, overflow: nat, reduced: bool)
    requires p <= |slack| && (p < |slack| ==> overflow == 0)
    requires overflow + Sum(Poured(slack, k, p)) == excess
    requires reduced <==> Sum(Poured(slack, k, p)) != Sum(Poured(slack, k, 0))
    ensures overflow == 0 ==> Drain(slack, excess) == Poured(slack, k, p) && excess <= Sum(slack)
    ensures overflow > 0 ==> Poured(slack, k, p) == Poured(slack, k + 1, 0)
    ensures !reduced && overflow > 0 ==> Poured(slack, k, p) == slack && Drain(slack, excess) == slack
  {
    hide Poured, Drain, IsLevel, Sum, Below;
    if overflow == 0 {
      SumMonotone(Poured(slack, k, p), slack);
      DrainIs(slack, excess, k, p);
    } else {
      assert p == |slack|;
      PouredRound(slack, k);
      if !reduced {
        IdleRound(slack, k);
        DrainAll(slack, excess);
      }
    }
  }

  /** Lines 250-278: the two-tier loop computes the two water levels. */
  method Shrink(columns: seq<Column>, widths: array<nat>, excess: nat)
    requires |columns| == widths.Length
    modifies widths
    ensures widths[..] == ShrunkWidths(columns, old(widths[..]), excess)
  {
    hide Poured, Drain, IsLevel, Sum, FlexFloor, HardFloor, FlexSlack, HardSlack, Minus;
    ghost var start := widths[..];
    ghost var low, slack := FlexFloor(columns, start), FlexSlack(columns, start);
    ghost var lowSlack := HardSlack(low);
    TierBounds(columns, start);
    ghost var drained, k := false, 0;
    var overflow: nat := excess;
    while overflow > 0
      invariant overflow > 0 && !drained ==>
        widths[..] == Minus(start, Poured(slack, k, 0)) && overflow + Sum(Poured(slack, k, 0)) == excess
      invariant overflow > 0 && drained ==>
        && widths[..] == Minus(low, Poured(lowSlack, k, 0))
        && overflow + Sum(slack) + Sum(Poured(lowSlack, k, 0)) == excess
      invariant overflow == 0 ==> widths[..] == ShrunkWidths(columns, start, excess)
    {
      // In tier 2 the flexible round works on columns without slack, so it is idle.
      ghost var base, round := if drained then widths[..] else start, if drained then 0 else k;
      if drained { NoFlexSlackLeft(columns, start, base); }
      var reduced: bool;
      ghost var p: nat;
      overflow, reduced, p := FlexRound(columns, widths, overflow, base, round);
      if !drained {
        AfterRound(slack, k, p, excess, overflow, reduced);
        drained, k := !reduced, if reduced then k + 1 else 0;
      }
      if !reduced {
        overflow, reduced, p := HardRound(widths, overflow, low, k);
        AfterRound(lowSlack, k, p, excess - Sum(slack), overflow, reduced);
        k := k + 1;
      }
      if !reduced {
        break;
      }
    }
  }

  lemma NoExcess(columns: seq<Column>, start: seq<nat>)
    requires |columns| == |start|
    ensures ShrunkWidths(columns, start, 0) == start
  {
    TierBounds(columns, start);
  }

  /** Where the two tiers start and end. */
  lemma TierBounds(columns: seq<Column>, start: seq<nat>)
    requires |columns| == |start|
    ensures Minus(start, FlexSlack(columns, start)) == FlexFloor(columns, start)
    ensures Minus(start, Poured(FlexSlack(columns, start), 0, 0)) == start == ShrunkWidths(columns, start, 0)
    ensures Sum(Poured(FlexSlack(columns, start), 0, 0)) == 0
    ensures var low := FlexFloor(columns, start);
      Minus(low, Poured(HardSlack(low), 0, 0)) == low && Sum(Poured(HardSlack(low), 0, 0)) == 0
  {
    var low := FlexFloor(columns, start);
    PouredNothing(FlexSlack(columns, start));
    DrainNothing(FlexSlack(columns, start));
    PouredNothing(HardSlack(low));
    assert Minus(start, FlexSlack(columns, start)) == low;
    assert Minus(start, Poured(FlexSlack(columns, start), 0, 0)) == start;
    assert Minus(low, Poured(HardSlack(low), 0, 0)) == low;
  }
}
