/** `boy_show_span` of boy/commands/span_cmd.c: the rows it prints and what they determine. */
module SpanListing {
  import opened Collectors
  import opened Interfaces
  import opened Memory
  import opened SpanCommands
  import opened Strings
  import opened Sums
  import opened TableLayout
  import opened TableStore
  import opened TableText
  import opened TableWidths
  import opened Vpp

  const COLUMNS: seq<Column> := [
    Column(Some("Interface Name"), 14, 0, true, AlignLeft),
    Column(Some("If-Index"), 8, 10, false, AlignRight),
    Column(Some("If-Type"), 7, 12, false, AlignLeft),
    Column(Some("Dev-Type"), 8, 0, true, AlignLeft),
    Column(Some("Destination"), 11, 0, true, AlignLeft),
    Column(Some("Device"), 6, 8, false, AlignLeft),
    Column(Some("L2"), 2, 8, false, AlignLeft)
  ]

  function TypeText(t: IfType): (s: string)
    ensures |s| <= 8
  {
    match t
    case Hardware => "hardware"
    case Sub => "sub"
    case P2p => "p2p"
    case Pipe => "pipe"
    case OtherType => "unknown"
  }

  /** `boy_span_state_device`. */
  function DeviceText(state: SpanState): (s: string)
    ensures 0 < |s| <= 4 && s != "*"
  {
    match state
    case Rx => "rx"
    case Tx => "tx"
    case RxTx => "both"
    case Disabled => "none"
  }

  /** `boy_span_state_l2`. */
  function L2Text(state: SpanState, l2: bool): string { if l2 then DeviceText(state) else "*" }

  /** Lines 18-33. */
  function SpanRow(entry: Interface, destination: string, device: string, l2: string): (r: seq<string>)
    ensures |r| == |COLUMNS|
  {
    [entry.name, Decimal(entry.swIfIndex), TypeText(entry.ifType), entry.devType, destination, device, l2]
  }

  function EntryRow(entries: seq<Interface>, entry: Interface, e: SpanEntry): (r: seq<string>)
    ensures |r| == |COLUMNS|
  {
    SpanRow(entry, NameOfIndex(entries, e.dest), if e.l2 then "*" else DeviceText(e.state), L2Text(e.state, e.l2))
  }

  function StarRow(entry: Interface): (r: seq<string>)
    ensures |r| == |COLUMNS|
  {
    SpanRow(entry, "*", "*", "*")
  }

  function EntryRows(entries: seq<Interface>, entry: Interface, found: seq<SpanEntry>): (r: seq<seq<string>>)
    ensures |r| == |found| && forall i :: 0 <= i < |r| ==> r[i] == EntryRow(entries, entry, found[i])
  {
    seq(|found|, i requires 0 <= i < |found| => EntryRow(entries, entry, found[i]))
  }

  /** The rows of one interface: one per SPAN entry, or a row of stars when it has none. */
  function Block(entries: seq<Interface>, entry: Interface, span: seq<SpanEntry>): seq<seq<string>> {
    var found := Matching(span, entry.swIfIndex);
    if !IsSpanSourceCandidate(entry) then []
    else if found == [] then [StarRow(entry)]
    else EntryRows(entries, entry, found)
  }

  /** The rows of the first `n` interfaces, in the order of the interface list. */
  function Blocks(entries: seq<Interface>, span: seq<SpanEntry>, n: nat): seq<seq<string>>
    requires n <= |entries|
  {
    if n == 0 then [] else Blocks(entries, span, n - 1) + Block(entries, entries[n - 1], span)
  }

  function SpanRows(entries: seq<Interface>, span: seq<SpanEntry>): seq<seq<string>> {
    Blocks(entries, span, |entries|)
  }

  // ----- building the table -----

  function Present(cells: seq<string>): (r: seq<Option<string>>)
    ensures |r| == |cells| && Stored(r) == cells
  {
    var r := seq(|cells|, j requires 0 <= j < |cells| => Some(cells[j]));
    assert Stored(r) == cells;
    r
  }

  method AddSpanRow(table: Table, row: seq<string>) returns (rc: int)
    requires table.Valid() && table.columns == COLUMNS && |row| == |COLUMNS|
    modifies table, table.rows, table.heap
    ensures table.Valid() && table.columns == COLUMNS
    ensures table.rows == old(table.rows) || fresh(table.rows)
    ensures rc == 0 ==> table.Grid() == old(table.Grid()) + [row]
    ensures table.heap.live - table.Owned() == old(table.heap.live - table.Owned())
    ensures table.heap.refused == old(table.heap.refused) + if rc == 0 then 0 else 1
  {
    rc := table.AddRow(Present(row));
  }

  lemma EntryRowsNext(entries: seq<Interface>, entry: Interface, found: seq<SpanEntry>, e: SpanEntry)
    ensures EntryRows(entries, entry, found + [e]) == EntryRows(entries, entry, found) + [EntryRow(entries, entry, e)]
  {
  }

  /** Lines 182-201: the rows of the matching SPAN entries. */
  method AddEntryRows(table: Table, entries: seq<Interface>, entry: Interface, span: seq<SpanEntry>)
    returns (rc: int, found: bool)
    requires table.Valid() && table.columns == COLUMNS
    modifies table, table.rows, table.heap
    ensures table.Valid() && table.columns == COLUMNS
    ensures table.rows == old(table.rows) || fresh(table.rows)
    ensures rc == 0 ==> table.Grid() == old(table.Grid()) + EntryRows(entries, entry, Matching(span, entry.swIfIndex))
    ensures rc == 0 ==> (found <==> Matching(span, entry.swIfIndex) != [])
    ensures table.heap.live - table.Owned() == old(table.heap.live - table.Owned())
    ensures table.heap.refused == old(table.heap.refused) + if rc == 0 then 0 else 1
  {
    hide Matching, Table.Valid, Table.Owned, Table.Grid, EntryRow, EntryRows;
    ghost var before := table.Grid();
    rc, found := 0, false;
    assert span[..0] == [] && span[..|span|] == span;
    NoMatches(entry.swIfIndex);
    assert before + EntryRows(entries, entry, []) == before;
    var j := 0;
    while j < |span|
      invariant j <= |span| && table.Valid() && table.columns == COLUMNS
      invariant table.rows == old(table.rows) || fresh(table.rows)
      invariant table.Grid() == before + EntryRows(entries, entry, Matching(span[..j], entry.swIfIndex))
      invariant found <==> Matching(span[..j], entry.swIfIndex) != []
      invariant table.heap.live - table.Owned() == old(table.heap.live - table.Owned())
      invariant table.heap.refused == old(table.heap.refused)
    {
      MatchingPrefix(span, entry.swIfIndex, j);
      var e := span[j];
      if e.source == entry.swIfIndex {
        EntryRowsNext(entries, entry, Matching(span[..j], entry.swIfIndex), e);
        rc := AddSpanRow(table, EntryRow(entries, entry, e));
        if rc != 0 {
          return;
        }
        found := true;
      }
      j := j + 1;
    }
    rc := 0;
  }

  /** Lines 173-209 for one interface. */
  method AddBlock(table: Table, entries: seq<Interface>, entry: Interface, span: seq<SpanEntry>) returns (rc: int)
    requires table.Valid() && table.columns == COLUMNS
    modifies table, table.rows, table.heap
    ensures table.Valid() && table.columns == COLUMNS
    ensures table.rows == old(table.rows) || fresh(table.rows)
    ensures rc == 0 ==> table.Grid() == old(table.Grid()) + Block(entries, entry, span)
    ensures table.heap.live - table.Owned() == old(table.heap.live - table.Owned())
    ensures table.heap.refused == old(table.heap.refused) + if rc == 0 then 0 else 1
  {
    hide Matching, Table.Valid, Table.Owned, Table.Grid, EntryRow;
    ghost var before := table.Grid();
    assert before + [] == before;
    if !IsSpanSourceCandidate(entry) {
      return 0;
    }
    var found;
    rc, found := AddEntryRows(table, entries, entry, span);
    if rc == 0 && !found {
      rc := AddSpanRow(table, StarRow(entry));
    }
  }

  lemma NoMatches(source: nat)
    ensures Matching([], source) == []
  {
  }

  /** Lines 173-209. */
  method AddAllBlocks(table: Table, entries: seq<Interface>, span: seq<SpanEntry>) returns (rc: int)
    requires table.Valid() && table.columns == COLUMNS && table.Grid() == []
    modifies table, table.rows, table.heap
    ensures table.Valid() && table.columns == COLUMNS
    ensures table.rows == old(table.rows) || fresh(table.rows)
    ensures rc == 0 ==> table.Grid() == SpanRows(entries, span)
    ensures table.heap.live - table.Owned() == old(table.heap.live - table.Owned())
    ensures table.heap.refused == old(table.heap.refused) + if rc == 0 then 0 else 1
  {
    hide Block, Table.Valid;
    rc := 0;
    var i := 0;
    while i < |entries|
      invariant i <= |entries| && table.Valid() && table.columns == COLUMNS
      invariant table.rows == old(table.rows) || fresh(table.rows)
      invariant table.Grid() == Blocks(entries, span, i)
      invariant table.heap.live - table.Owned() == old(table.heap.live - table.Owned())
      invariant table.heap.refused == old(table.heap.refused)
    {
      rc := AddBlock(table, entries, entries[i], span);
      if rc != 0 {
        return;
      }
      i := i + 1;
    }
  }

  /** What a successful listing prints. */
  ghost function Listing(entries: seq<Interface>, span: seq<SpanEntry>, available: nat): string
    requires Rectangular(COLUMNS, SpanRows(entries, span))
  {
    var rows := SpanRows(entries, span);
    Unlines(TableLines(COLUMNS, rows, FinalWidths(COLUMNS, rows, available)))
  }

  lemma {:induction false} BlocksRectangular(entries: seq<Interface>, span: seq<SpanEntry>, n: nat)
    requires n <= |entries|
    ensures Rectangular(COLUMNS, Blocks(entries, span, n))
  {
    hide Block, SpanRow;
    if n > 0 {
      BlocksRectangular(entries, span, n - 1);
      BlockRectangular(entries, entries[n - 1], span);
    }
  }

  lemma BlockRectangular(entries: seq<Interface>, entry: Interface, span: seq<SpanEntry>)
    ensures forall i :: 0 <= i < |Block(entries, entry, span)| ==> |Block(entries, entry, span)[i]| == |COLUMNS|
  {
    hide Matching, EntryRow, SpanRow;
  }

  lemma SpanRowsRectangular(entries: seq<Interface>, span: seq<SpanEntry>)
    ensures Rectangular(COLUMNS, SpanRows(entries, span))
  {
    BlocksRectangular(entries, span, |entries|);
  }

  /** Lines 167-212: builds, prints and releases the table. */
  method PrintSpanTable(heap: Heap, out: Stream, entries: seq<Interface>, span: seq<SpanEntry>,
                        available: nat, widthsMemory: bool) returns (rc: int)
    requires heap.Valid()
    modifies heap, out
    ensures heap.Valid() && heap.live == old(heap.live)
    ensures Rectangular(COLUMNS, SpanRows(entries, span)) && (rc == 0 || rc == 1)
    ensures heap.refused >= old(heap.refused) && (rc == 0 <==> heap.refused == old(heap.refused))
    ensures out.text == old(out.text) + if rc == 0 && widthsMemory then Listing(entries, span, available) else ""
  {
    hide Table.Valid, Table.Owned, Table.Grid, SpanRows, TableLines, FinalWidths, Unlines, Heap.Valid, Rectangular;
    SpanRowsRectangular(entries, span);
    var table := new Table(heap);
    var initialized := table.Init(COLUMNS);
    rc := 1;
    if initialized != 0 {
      return;
    }
    var added := AddAllBlocks(table, entries, span);
    if added == 0 {
      table.Render(out, available, widthsMemory);
      rc := 0;
    }
    table.Free();
  }

  /**
    Lines 132-223. Only an incomplete dump or a failed allocation makes it fail. Success prints the
    table of the dump (nothing when the widths cannot be allocated); failure prints nothing. Either
    way the heap is left as it was found.
  */
  method ShowSpan(vpp: Server, heap: Heap, out: Stream, available: nat, env: Environment, widthsMemory: bool)
    returns (rc: int, ghost dump: seq<SpanEntry>)
    requires heap.Valid()
    modifies heap, out
    ensures heap.Valid() && heap.live == old(heap.live)
    ensures rc == 0 <==> env.DumpsArrive() && heap.refused == old(heap.refused)
    ensures rc == 0 ==> IsDump(dump, vpp.span)
    ensures Rectangular(COLUMNS, SpanRows(vpp.interfaces, dump)) && (rc == 0 || rc == 1)
    ensures out.text == old(out.text) + if rc == 0 && widthsMemory then Listing(vpp.interfaces, dump, available) else ""
  {
    hide IsDump, SpanRows, Listing, Heap.Valid, Rectangular;
    rc, dump := 1, [];
    SpanRowsRectangular(vpp.interfaces, dump);
    var interfaces := new EntryTable<Interface>(heap);
    var span := new EntryTable<SpanEntry>(heap);
    var collected := CollectBoth(vpp, interfaces, span, env);
    if collected == 0 {
      dump := span.Contents();
      SpanRowsRectangular(vpp.interfaces, dump);
      rc := PrintSpanTable(heap, out, interfaces.Contents(), span.Contents(), available, widthsMemory);
    }
    ReleaseBoth(interfaces, span);
  }
}
