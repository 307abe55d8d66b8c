/** What the shrink loop of common/table.c guarantees about the widths it prints with. */
module TableLayout {
  import opened Sums
  import opened WaterLevel
  import opened TableWidths

  /** The widths a table is printed with on a terminal of `available` columns. */
  ghost function FinalWidths(columns: seq<Column>, grid: seq<seq<string>>, available: nat): (r: seq<nat>)
    requires Rectangular(columns, grid)
    ensures |r| == |columns|
  {
    var natural := NaturalWidths(columns, grid);
    ShrunkWidths(columns, natural, Excess(natural, available))
  }

  lemma DrainLevel(start: seq<nat>, slack: seq<nat>, budget: nat) returns (k: nat, p: nat)
    requires Below(slack, start)
    ensures Below(Drain(slack, budget), start)
    ensures forall j :: 0 <= j < |start| ==>
      Minus(start, Drain(slack, budget))[j] == start[j] - Min(slack[j], k + if j < p then 1 else 0)
  {
    k, p :| Drain(slack, budget) == Poured(slack, k, p);
  }

  /**
    The explicit water levels. A flexible column can give what it has above its minimum. While the
    excess fits in what the flexible columns can give together, there is a level `k` such that every
    one of them loses `k`, or one more before position `p`, as far as it can give. Beyond that they
    all stand at their minimum, and in the same way every column loses what it has above three.
  */
  lemma WaterLevels(columns: seq<Column>, widths: seq<nat>, excess: nat)
    returns (slack: seq<nat>, low: seq<nat>, k: nat, p: nat)
    requires |columns| == |widths|
    ensures |slack| == |low| == |widths|
    ensures forall j :: 0 <= j < |widths| ==>
      slack[j] == if columns[j].flexible && widths[j] > columns[j].minWidth then widths[j] - columns[j].minWidth else 0
    ensures forall j :: 0 <= j < |widths| ==> low[j] + slack[j] == widths[j]
    ensures forall j :: 0 <= j < |widths| ==>
      ShrunkWidths(columns, widths, excess)[j] ==
        var level := if j < p then k + 1 else k;
        if excess <= Sum(slack) then widths[j] - (if level < slack[j] then level else slack[j])
        else if low[j] <= 3 then low[j]
        else if low[j] - level > 3 then low[j] - level else 3
  {
    slack, low := FlexSlack(columns, widths), FlexFloor(columns, widths);
    hide Drain, Sum;
    if excess <= Sum(slack) {
      k, p := DrainLevel(widths, slack, excess);
    } else {
      k, p := DrainLevel(low, HardSlack(low), excess - Sum(slack));
    }
  }

  lemma DrainSum(start: seq<nat>, slack: seq<nat>, budget: nat)
    requires Below(slack, start)
    ensures Below(Drain(slack, budget), start)
    ensures Sum(Minus(start, Drain(slack, budget))) + Min(budget, Sum(slack)) == Sum(start)
  {
    SumMinus(start, Drain(slack, budget));
  }

  /** The widths add up to what was asked for, or to the floors when that is too much. */
  lemma ShrunkSum(columns: seq<Column>, widths: seq<nat>, excess: nat)
    requires |columns| == |widths|
    ensures Sum(Floors(columns, widths)) <= Sum(widths)
    ensures Sum(ShrunkWidths(columns, widths, excess))
         == if excess <= Sum(widths) - Sum(Floors(columns, widths)) then Sum(widths) - excess
            else Sum(Floors(columns, widths))
  {
    hide Drain, Sum, Minus, FlexFloor, HardFloor, Below;
    var slack, low := FlexSlack(columns, widths), FlexFloor(columns, widths);
    SumMinus(widths, low);
    SumMinus(low, HardFloor(low));
    if excess <= Sum(slack) {
      DrainSum(widths, slack, excess);
    } else {
      DrainSum(low, HardSlack(low), excess - Sum(slack));
    }
  }

  /** The tiers meet: what is left when tier 1 is exactly used up is where tier 2 starts. */
  lemma TiersMeet(columns: seq<Column>, widths: seq<nat>)
    requires |columns| == |widths|
    ensures var low := FlexFloor(columns, widths);
      ShrunkWidths(columns, widths, Sum(FlexSlack(columns, widths))) == low == Minus(low, Drain(HardSlack(low), 0))
  {
    var slack, low := FlexSlack(columns, widths), FlexFloor(columns, widths);
    DrainAll(slack, Sum(slack));
    DrainNothing(HardSlack(low));
    assert Minus(widths, slack) == low;
    assert Minus(low, Drain(HardSlack(low), 0)) == low;
  }

  lemma DrainNext(start: seq<nat>, slack: seq<nat>, budget: nat) returns (j: nat)
    requires Below(slack, start) && budget < Sum(slack)
    ensures j < |start| && Minus(start, Drain(slack, budget))[j] > 0
    ensures Minus(start, Drain(slack, budget + 1))
         == Minus(start, Drain(slack, budget))[j := Minus(start, Drain(slack, budget))[j] - 1]
  {
    j := LevelNext(slack, Drain(slack, budget), Drain(slack, budget + 1));
    var now := Minus(start, Drain(slack, budget));
    assert Drain(slack, budget + 1)[j] == Drain(slack, budget)[j] + 1;
    assert Minus(start, Drain(slack, budget + 1)) == now[j := now[j] - 1];
  }

  /** `next` is `now`, or `now` with one column narrower by one when some column can give. */
  ghost predicate OneStepNarrower(now: seq<nat>, next: seq<nat>, floors: seq<nat>) {
    if now == floors then next == now
    else exists j :: 0 <= j < |now| && now[j] > 0 && next == now[j := now[j] - 1]
  }

  /** One tier, with floors `start - slack`. */
  lemma DrainStep(start: seq<nat>, slack: seq<nat>, budget: nat)
    requires Below(slack, start)
    ensures OneStepNarrower(Minus(start, Drain(slack, budget)), Minus(start, Drain(slack, budget + 1)),
                            Minus(start, slack))
  {
    var now := Minus(start, Drain(slack, budget));
    if budget < Sum(slack) {
      var j := DrainNext(start, slack, budget);
      SumMinus(start, slack);
      SumMinus(start, Drain(slack, budget));
      assert now != Minus(start, slack);
      assert now[j] > 0;
    } else {
      DrainAll(slack, budget);
      DrainAll(slack, budget + 1);
    }
  }

  /** One unit more of excess narrows exactly one column by one, or nothing when all are at their floor. */
  lemma OneColumnNarrower(columns: seq<Column>, widths: seq<nat>, excess: nat)
    requires |columns| == |widths|
    ensures OneStepNarrower(ShrunkWidths(columns, widths, excess), ShrunkWidths(columns, widths, excess + 1),
                            Floors(columns, widths))
  {
    hide Drain, IsLevel, Sum, Poured, OneStepNarrower;
    var slack, low := FlexSlack(columns, widths), FlexFloor(columns, widths);
    if excess < Sum(slack) {
      DrainStep(widths, slack, excess);
      assert Minus(widths, slack) == low;
      AboveLowest(columns, widths, excess);
    } else {
      TiersMeet(columns, widths);
      DrainStep(low, HardSlack(low), excess - Sum(slack));
      assert Minus(low, HardSlack(low)) == HardFloor(low);
    }
  }

  lemma AboveLowest(columns: seq<Column>, widths: seq<nat>, excess: nat)
    requires |columns| == |widths| && excess < Sum(FlexSlack(columns, widths))
    requires OneStepNarrower(ShrunkWidths(columns, widths, excess), ShrunkWidths(columns, widths, excess + 1),
                             FlexFloor(columns, widths))
    ensures OneStepNarrower(ShrunkWidths(columns, widths, excess), ShrunkWidths(columns, widths, excess + 1),
                            Floors(columns, widths))
  {
    var low := FlexFloor(columns, widths);
    SumMinus(widths, low);
    SumMinus(widths, Drain(FlexSlack(columns, widths), excess));
    SumMonotone(HardFloor(low), low);
  }

  lemma {:induction false} ShrinkMonotone(columns: seq<Column>, widths: seq<nat>, less: nat, more: nat)
    requires |columns| == |widths| && less <= more
    ensures Below(ShrunkWidths(columns, widths, more), ShrunkWidths(columns, widths, less))
    decreases more - less
  {
    if less < more {
      OneColumnNarrower(columns, widths, less);
      ShrinkMonotone(columns, widths, less + 1, more);
    }
  }

  /** No column becomes narrower when the terminal becomes wider. */
  lemma FinalWidthsMonotone(columns: seq<Column>, grid: seq<seq<string>>, narrow: nat, wide: nat)
    requires Rectangular(columns, grid) && narrow <= wide
    ensures Below(FinalWidths(columns, grid, narrow), FinalWidths(columns, grid, wide))
  {
    var natural := NaturalWidths(columns, grid);
    ShrinkMonotone(columns, natural, Excess(natural, wide), Excess(natural, narrow));
  }

  /**
    A terminal one column narrower makes exactly one table column narrower, by one; it changes
    nothing when the table still fits or every column is at its floor.
  */
  lemma TerminalOneNarrower(columns: seq<Column>, grid: seq<seq<string>>, available: nat)
    requires Rectangular(columns, grid) && available > 0
    ensures var natural := NaturalWidths(columns, grid);
      var now, next := FinalWidths(columns, grid, available), FinalWidths(columns, grid, available - 1);
      if LineWidth(natural) % SIZE_MOD < available then next == now
      else OneStepNarrower(now, next, Floors(columns, natural))
  {
    hide ShrunkWidths, Floors, OneStepNarrower, LineWidth;
    var natural := NaturalWidths(columns, grid);
    OneColumnNarrower(columns, natural, Excess(natural, available));
  }

  /** Tier 2 takes from a column only when no flexible column is above its minimum. */
  lemma HardTierComesLast(columns: seq<Column>, widths: seq<nat>, excess: nat, taken: nat, other: nat)
    requires |columns| == |widths| && taken < |columns| && other < |columns|
    requires ShrunkWidths(columns, widths, excess)[taken] < FlexFloor(columns, widths)[taken]
    ensures columns[other].flexible ==> ShrunkWidths(columns, widths, excess)[other] <= columns[other].minWidth
  {
  }

  /** The excess the code works with is the true one exactly when the 64-bit sum does not wrap. */
  lemma ExcessExact(widths: seq<nat>, available: nat)
    requires available < 0x1_0000_0000_0000_0000
    ensures (Excess(widths, available) == if LineWidth(widths) > available then LineWidth(widths) - available else 0)
       <==> LineWidth(widths) < 0x1_0000_0000_0000_0000
  {
    var line := LineWidth(widths);
    if line >= SIZE_MOD {
      assert line % SIZE_MOD < SIZE_MOD <= line;
    }
  }

  /** Two columns of minimum width 2^64 - 1: the sum wraps to 0 and nothing is shrunk. */
  lemma WrappedSumExample()
    ensures var column := Column(None, SIZE_MOD - 1, 0, true, AlignLeft);
      var widths := NaturalWidths([column, column], []);
      LineWidth(widths) > 120 && Excess(widths, 120) == 0
  {
    var column := Column(None, SIZE_MOD - 1, 0, true, AlignLeft);
    var widths := NaturalWidths([column, column], []);
    assert widths == [SIZE_MOD - 1, SIZE_MOD - 1];
    assert Sum(widths) == widths[0] + (widths[1] + Sum([]));
    assert LineWidth(widths) == 2 * SIZE_MOD;
  }

  /**
    The length of every printed line. The floors are three, or less where the column is narrower or
    is flexible with a smaller minimum; neighbours are two blanks apart.
  */
  lemma FinalLineWidth(columns: seq<Column>, grid: seq<seq<string>>, available: nat)
    requires Rectangular(columns, grid)
    requires LineWidth(NaturalWidths(columns, grid)) < SIZE_MOD
    ensures var natural := NaturalWidths(columns, grid);
      LineWidth(FinalWidths(columns, grid, available))
      == if LineWidth(natural) <= available then LineWidth(natural)
         else Max(available, Gaps(|columns|) + Sum(Floors(columns, natural)))
    ensures LineWidth(FinalWidths(columns, grid, available)) <= available
       <==> Gaps(|columns|) + Sum(Floors(columns, NaturalWidths(columns, grid))) <= available
    ensures Gaps(|columns|) == if columns == [] then 0 else 2 * (|columns| - 1)
    ensures forall j :: 0 <= j < |columns| ==>
      var natural := NaturalWidths(columns, grid)[j];
      var low := if columns[j].flexible && columns[j].minWidth < natural then columns[j].minWidth else natural;
      Floors(columns, NaturalWidths(columns, grid))[j] == if low < 3 then low else 3
  {
    hide NaturalWidths, ShrunkWidths, Sum;
    var natural := NaturalWidths(columns, grid);
    ShrunkSum(columns, natural, Excess(natural, available));
  }

  /** No column has a text longer than its maximum. */
  ghost predicate NoMaximumCuts(columns: seq<Column>, grid: seq<seq<string>>)
    requires Rectangular(columns, grid)
  {
    forall j :: 0 <= j < |columns| ==>
      columns[j].maxWidth == 0 || ContentWidth(columns[j], grid, j) <= columns[j].maxWidth
  }

  /** At these widths no text is truncated. */
  ghost predicate NothingTruncated(columns: seq<Column>, grid: seq<seq<string>>, widths: seq<nat>)
    requires Rectangular(columns, grid) && |columns| == |widths|
  {
    && (forall j :: 0 <= j < |columns| ==> |columns[j].HeaderText()| <= widths[j])
    && forall i, j :: 0 <= i < |grid| && 0 <= j < |columns| ==> |grid[i][j]| <= widths[j]
  }

  /** The clamped width holds every text of a column exactly when its maximum holds the longest one. */
  lemma NaturalWidthHolds(columns: seq<Column>, grid: seq<seq<string>>, j: nat)
    requires Rectangular(columns, grid) && j < |columns|
    ensures var (column, width) := (columns[j], NaturalWidths(columns, grid)[j]);
      column.maxWidth == 0 || ContentWidth(column, grid, j) <= column.maxWidth
      <==> |column.HeaderText()| <= width && forall i :: 0 <= i < |grid| ==> |grid[i][j]| <= width
  {
    hide ContentWidth;
    ContentWidthIsLongest(columns[j], grid, j);
  }

  /** A table that fits is truncated exactly when a column maximum cuts one of its texts. */
  lemma FittingTableKeepsText(columns: seq<Column>, grid: seq<seq<string>>, available: nat)
    requires Rectangular(columns, grid)
    requires LineWidth(NaturalWidths(columns, grid)) <= available < SIZE_MOD
    ensures NothingTruncated(columns, grid, FinalWidths(columns, grid, available)) <==> NoMaximumCuts(columns, grid)
  {
    hide ShrunkWidths, Sum, NaturalWidths, ContentWidth;
    var natural := NaturalWidths(columns, grid);
    NoExcess(columns, natural);
    assert FinalWidths(columns, grid, available) == natural;
    forall j | 0 <= j < |columns|
      ensures columns[j].maxWidth == 0 || ContentWidth(columns[j], grid, j) <= columns[j].maxWidth
        <==> |columns[j].HeaderText()| <= natural[j] && forall i :: 0 <= i < |grid| ==> |grid[i][j]| <= natural[j]
    {
      NaturalWidthHolds(columns, grid, j);
    }
  }
}
