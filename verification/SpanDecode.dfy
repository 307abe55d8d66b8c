/** Reading the SPAN listing back: from its rows, and from the printed text. */
module SpanDecode {
  import opened Interfaces
  import opened SpanCommands
  import opened SpanListing
  import opened SpanTheorems
  import opened Strings
  import opened Sums
  import opened TableDecode
  import opened TableLayout
  import opened TableText
  import opened TableWidths
  import opened Vpp

  // ----- the join -----

  /** The SPAN entries of the first `n` interfaces that are candidates, grouped by interface. */
  function Join(entries: seq<Interface>, span: seq<SpanEntry>, n: nat): seq<SpanEntry>
    requires n <= |entries|
  {
    if n == 0 then []
    else
      var own := if IsSpanSourceCandidate(entries[n - 1]) then Matching(span, entries[n - 1].swIfIndex) else [];
      Join(entries, span, n - 1) + own
  }

  ghost predicate UniqueIndices(entries: seq<Interface>) {
    forall i, j :: 0 <= i < j < |entries| ==> entries[i].swIfIndex != entries[j].swIfIndex
  }

  ghost predicate UniqueNames(entries: seq<Interface>) {
    forall i, j :: 0 <= i < j < |entries| ==> entries[i].name != entries[j].name
  }

  /** An interface that can be mirrored: hardware or a VLAN sub-interface, neither the local one nor a memif. */
  ghost predicate CanBeMirrored(entry: Interface) {
    && (entry.ifType == Hardware || (entry.ifType == Sub && '.' in entry.name))
    && entry.name != "local0" && !("memif" <= entry.name)
  }

  /** The source is the index of one of the first `n` interfaces, one that can be mirrored. */
  ghost predicate CandidateSource(entries: seq<Interface>, source: nat, n: nat) {
    exists i :: 0 <= i < n && i < |entries| && entries[i].swIfIndex == source && CanBeMirrored(entries[i])
  }

  lemma {:induction false} MatchingCount(span: seq<SpanEntry>, source: nat, e: SpanEntry)
    ensures multiset(Matching(span, source))[e] == if e.source == source then multiset(span)[e] else 0
  {
    if span != [] {
      var n := |span| - 1;
      assert span == span[..n] + [span[n]];
      MatchingCount(span[..n], source, e);
    }
  }

  /** Every entry of a candidate is in the join as often as in the dump, every other entry not at all. */
  lemma {:induction false} JoinCount(entries: seq<Interface>, span: seq<SpanEntry>, n: nat, e: SpanEntry)
    requires n <= |entries| && UniqueIndices(entries)
    ensures multiset(Join(entries, span, n))[e]
         == if CandidateSource(entries, e.source, n) then multiset(span)[e] else 0
  {
    if n > 0 {
      JoinCount(entries, span, n - 1, e);
      MatchingCount(span, entries[n - 1].swIfIndex, e);
      CandidateNext(entries, e.source, n);
    }
  }

  lemma CandidateNext(entries: seq<Interface>, source: nat, n: nat)
    requires 0 < n <= |entries| && UniqueIndices(entries)
    ensures var last := entries[n - 1];
      var added := last.swIfIndex == source && IsSpanSourceCandidate(last);
      && (CandidateSource(entries, source, n) <==> CandidateSource(entries, source, n - 1) || added)
      && !(CandidateSource(entries, source, n - 1) && added)
  {
    if CandidateSource(entries, source, n - 1) {
      var i :| 0 <= i < n - 1 && i < |entries| && entries[i].swIfIndex == source && CanBeMirrored(entries[i]);
      assert entries[i].swIfIndex != entries[n - 1].swIfIndex;
    }
  }

  // ----- reading rows -----

  function StateOfText(s: string): SpanState {
    if s == "rx" then Rx else if s == "tx" then Tx else if s == "both" then RxTx else Disabled
  }

  predicate IsStarRow(row: seq<string>)
    requires |row| == |COLUMNS|
  {
    row[5] == "*" && row[6] == "*"
  }

  /** The entry a row shows: the source by its index, the destination by its name. */
  function DecodeRow(entries: seq<Interface>, row: seq<string>): SpanEntry
    requires |row| == |COLUMNS|
  {
    var position := PositionOfName(entries, row[4]);
    var dest := if position.Some? then entries[position.value].swIfIndex else 0;
    var l2 := row[5] == "*";
    SpanEntry(DecimalValue(row[1]), dest, StateOfText(if l2 then row[6] else row[5]), l2)
  }

  function DecodeRows(entries: seq<Interface>, rows: seq<seq<string>>): seq<SpanEntry>
    requires Rectangular(COLUMNS, rows)
  {
    if rows == [] then []
    else
      var n := |rows| - 1;
      DecodeRows(entries, rows[..n]) + if IsStarRow(rows[n]) then [] else [DecodeRow(entries, rows[n])]
  }

  lemma {:induction false} DecodeRowsConcat(entries: seq<Interface>, a: seq<seq<string>>, b: seq<seq<string>>)
    requires Rectangular(COLUMNS, a) && Rectangular(COLUMNS, b)
    ensures Rectangular(COLUMNS, a + b)
    ensures DecodeRows(entries, a + b) == DecodeRows(entries, a) + DecodeRows(entries, b)
  {
    hide DecodeRow, IsStarRow;
    if b == [] {
      assert a + b == a;
    } else {
      var n := |b| - 1;
      assert (a + b)[..|a| + n] == a + b[..n] && (a + b)[|a| + n] == b[n];
      DecodeRowsConcat(entries, a, b[..n]);
    }
  }

  /** Every destination is listed and every state is an enabled one. */
  ghost predicate Readable(entries: seq<Interface>, span: seq<SpanEntry>) {
    forall i :: 0 <= i < |span| ==> span[i].state != Disabled && PositionOfIndex(entries, span[i].dest).Some?
  }

  lemma NameFindsIndex(entries: seq<Interface>, index: nat)
    requires UniqueNames(entries) && PositionOfIndex(entries, index).Some?
    ensures var position := PositionOfName(entries, NameOfIndex(entries, index));
      position.Some? && entries[position.value].swIfIndex == index
  {
    var p := PositionOfIndex(entries, index).value;
    assert entries[p].name == NameOfIndex(entries, index);
    assert PositionOfName(entries, entries[p].name) == Some(p);
  }

  lemma RowRoundTrip(entries: seq<Interface>, entry: Interface, e: SpanEntry)
    requires UniqueNames(entries) && e.source == entry.swIfIndex
    requires e.state != Disabled && PositionOfIndex(entries, e.dest).Some?
    ensures var row := EntryRow(entries, entry, e);
      !IsStarRow(row) && DecodeRow(entries, row) == e
  {
    DecimalRoundTrip(entry.swIfIndex);
    NameFindsIndex(entries, e.dest);
  }

  lemma {:induction false} FoundRoundTrip(entries: seq<Interface>, entry: Interface, found: seq<SpanEntry>)
    requires UniqueNames(entries) && Readable(entries, found)
    requires forall i :: 0 <= i < |found| ==> found[i].source == entry.swIfIndex
    ensures DecodeRows(entries, EntryRows(entries, entry, found)) == found
  {
    hide EntryRow, DecodeRow, IsStarRow, PositionOfIndex;
    if found != [] {
      var n := |found| - 1;
      FoundRoundTrip(entries, entry, found[..n]);
      RowRoundTrip(entries, entry, found[n]);
      assert EntryRows(entries, entry, found)[..n] == EntryRows(entries, entry, found[..n]);
      assert found == found[..n] + [found[n]];
    }
  }

  lemma MatchingReadable(entries: seq<Interface>, span: seq<SpanEntry>, source: nat)
    requires Readable(entries, span)
    ensures Readable(entries, Matching(span, source))
  {
    forall i | 0 <= i < |Matching(span, source)|
      ensures Matching(span, source)[i].state != Disabled
        && PositionOfIndex(entries, Matching(span, source)[i].dest).Some?
    {
      assert Matching(span, source)[i] in span;
    }
  }

  lemma StarsDecodeToNothing(entries: seq<Interface>, entry: Interface)
    ensures Rectangular(COLUMNS, [StarRow(entry)]) && DecodeRows(entries, [StarRow(entry)]) == []
  {
    var rows := [StarRow(entry)];
    assert rows[..0] == [];
    assert IsStarRow(rows[0]);
  }

  lemma {:induction false} BlocksDecode(entries: seq<Interface>, span: seq<SpanEntry>, n: nat)
    requires n <= |entries| && UniqueNames(entries) && Readable(entries, span)
    ensures Rectangular(COLUMNS, Blocks(entries, span, n))
    ensures DecodeRows(entries, Blocks(entries, span, n)) == Join(entries, span, n)
  {
    hide DecodeRows, Matching, EntryRows, StarRow, IsSpanSourceCandidate, Readable;
    BlocksRectangular(entries, span, n);
    if n == 0 {
      NoRows(entries);
    } else {
      var entry := entries[n - 1];
      BlocksDecode(entries, span, n - 1);
      BlockRectangular(entries, entry, span);
      DecodeRowsConcat(entries, Blocks(entries, span, n - 1), Block(entries, entry, span));
      MatchingReadable(entries, span, entry.swIfIndex);
      FoundRoundTrip(entries, entry, Matching(span, entry.swIfIndex));
      StarsDecodeToNothing(entries, entry);
      NoRows(entries);
    }
  }

  lemma NoRows(entries: seq<Interface>)
    ensures DecodeRows(entries, []) == []
  {
  }

  /** The rows determine, in order, the SPAN entries of every candidate. */
  lemma ListingDecodes(entries: seq<Interface>, span: seq<SpanEntry>)
    requires UniqueNames(entries) && Readable(entries, span)
    ensures Rectangular(COLUMNS, SpanRows(entries, span))
    ensures DecodeRows(entries, SpanRows(entries, span)) == Join(entries, span, |entries|)
  {
    BlocksDecode(entries, span, |entries|);
  }

  // ----- the rows of stars -----

  /** The interfaces that rows of stars stand for, by index. */
  function StarSources(rows: seq<seq<string>>): seq<nat>
    requires Rectangular(COLUMNS, rows)
  {
    if rows == [] then []
    else
      var n := |rows| - 1;
      StarSources(rows[..n]) + if IsStarRow(rows[n]) then [DecimalValue(rows[n][1])] else []
  }

  /** The candidates among the first `n` interfaces without an entry, by index. */
  function Lonely(entries: seq<Interface>, span: seq<SpanEntry>, n: nat): seq<nat>
    requires n <= |entries|
  {
    if n == 0 then []
    else
      var last := entries[n - 1];
      var alone := IsSpanSourceCandidate(last) && Matching(span, last.swIfIndex) == [];
      Lonely(entries, span, n - 1) + if alone then [last.swIfIndex] else []
  }

  lemma {:induction false} StarSourcesConcat(a: seq<seq<string>>, b: seq<seq<string>>)
    requires Rectangular(COLUMNS, a) && Rectangular(COLUMNS, b)
    ensures Rectangular(COLUMNS, a + b) && StarSources(a + b) == StarSources(a) + StarSources(b)
  {
    hide IsStarRow;
    if b == [] {
      assert a + b == a;
    } else {
      var n := |b| - 1;
      assert (a + b)[..|a| + n] == a + b[..n] && (a + b)[|a| + n] == b[n];
      StarSourcesConcat(a, b[..n]);
    }
  }

  lemma {:induction false} NoStars(rows: seq<seq<string>>)
    requires Rectangular(COLUMNS, rows) && forall i :: 0 <= i < |rows| ==> !IsStarRow(rows[i])
    ensures StarSources(rows) == []
  {
    if rows != [] { NoStars(rows[..|rows| - 1]); }
  }

  /** The stars of one block. */
  lemma StarsOfBlock(entries: seq<Interface>, entry: Interface, span: seq<SpanEntry>)
    ensures Rectangular(COLUMNS, Block(entries, entry, span))
    ensures StarSources(Block(entries, entry, span))
         == if IsSpanSourceCandidate(entry) && Matching(span, entry.swIfIndex) == [] then [entry.swIfIndex] else []
  {
    hide Matching, Decimal, DecimalValue, IsSpanSourceCandidate;
    BlockRectangular(entries, entry, span);
    var rows, found := Block(entries, entry, span), Matching(span, entry.swIfIndex);
    if IsSpanSourceCandidate(entry) && found == [] {
      DecimalRoundTrip(entry.swIfIndex);
      assert rows == [StarRow(entry)] && rows[..0] == [] && IsStarRow(rows[0]);
      assert StarSources(rows[..0]) == [];
    } else {
      NoStars(rows);
    }
  }

  /** In the whole listing, the rows of stars stand exactly for the candidates without entries, in order. */
  lemma {:induction false} StarRowsExact(entries: seq<Interface>, span: seq<SpanEntry>, n: nat)
    requires n <= |entries|
    ensures Rectangular(COLUMNS, Blocks(entries, span, n))
    ensures StarSources(Blocks(entries, span, n)) == Lonely(entries, span, n)
  {
    hide Block, Matching, IsSpanSourceCandidate, StarSources, IsStarRow;
    BlocksRectangular(entries, span, n);
    if n == 0 {
      NoStars([]);
    } else {
      StarRowsExact(entries, span, n - 1);
      StarsOfBlock(entries, entries[n - 1], span);
      StarSourcesConcat(Blocks(entries, span, n - 1), Block(entries, entries[n - 1], span));
    }
  }

  // ----- what every row shows -----

  ghost predicate ShowsType(text: string, t: IfType) {
    match t
    case Hardware => text == "hardware"
    case Sub => text == "sub"
    case P2p => text == "p2p"
    case Pipe => text == "pipe"
    case OtherType => text == "unknown"
  }

  ghost predicate ShowsState(text: string, state: SpanState) {
    match state
    case Disabled => text == "none"
    case Rx => text == "rx"
    case Tx => text == "tx"
    case RxTx => text == "both"
  }

  /** The cells about the interface: name, index, type and device type. */
  ghost predicate Describes(row: seq<string>, entry: Interface) {
    && |row| == 7 && row[0] == entry.name && row[3] == entry.devType
    && DecimalValue(row[1]) == entry.swIfIndex && ShowsType(row[2], entry.ifType)
  }

  /** The cells about a SPAN entry: its destination by name, and its state under Device or under L2. */
  ghost predicate ShowsEntry(entries: seq<Interface>, row: seq<string>, e: SpanEntry) {
    && |row| == 7 && ShowsName(entries, row[4], e.dest)
    && (if e.l2 then row[5] == "*" && ShowsState(row[6], e.state) else ShowsState(row[5], e.state) && row[6] == "*")
  }

  /** The name of the first interface with this index, or that there is none. */
  ghost predicate ShowsName(entries: seq<Interface>, text: string, index: nat) {
    if forall i :: 0 <= i < |entries| ==> entries[i].swIfIndex != index then text == "<unknown>"
    else exists i :: 0 <= i < |entries| && entries[i].swIfIndex == index && text == entries[i].name
           && forall k :: 0 <= k < i ==> entries[k].swIfIndex != index
  }

  /** The row of an entry of this interface in the dump, or its row of stars when it has none. */
  ghost predicate IsRowOf(entries: seq<Interface>, dump: seq<SpanEntry>, row: seq<string>, i: nat)
    requires i < |entries|
  {
    && CanBeMirrored(entries[i]) && Describes(row, entries[i])
    && ((exists e :: e in dump && e.source == entries[i].swIfIndex && ShowsEntry(entries, row, e))
        || ((forall e :: e in dump ==> e.source != entries[i].swIfIndex) && row[4] == row[5] == row[6] == "*"))
  }

  lemma NameIsShown(entries: seq<Interface>, index: nat)
    ensures ShowsName(entries, NameOfIndex(entries, index), index)
  {
    hide PositionOfIndex;
    var position := PositionOfIndex(entries, index);
    if position.Some? { assert entries[position.value].swIfIndex == index; }
  }

  lemma RowDescribes(entry: Interface, destination: string, device: string, l2: string)
    ensures Describes(SpanRow(entry, destination, device, l2), entry)
  {
    DecimalRoundTrip(entry.swIfIndex);
  }

  lemma EntryRowShows(entries: seq<Interface>, entry: Interface, e: SpanEntry)
    ensures Describes(EntryRow(entries, entry, e), entry) && ShowsEntry(entries, EntryRow(entries, entry, e), e)
  {
    hide Describes, ShowsName, NameOfIndex, Decimal;
    NameIsShown(entries, e.dest);
    RowDescribes(entry, NameOfIndex(entries, e.dest), if e.l2 then "*" else DeviceText(e.state), L2Text(e.state, e.l2));
  }

  lemma BlockRows(entries: seq<Interface>, dump: seq<SpanEntry>, i: nat)
    requires i < |entries|
    ensures forall row :: row in Block(entries, entries[i], dump) ==> IsRowOf(entries, dump, row, i)
  {
    hide Matching, EntryRow, Describes, ShowsEntry;
    var entry, found := entries[i], Matching(dump, entries[i].swIfIndex);
    if CanBeMirrored(entry) {
      forall k | 0 <= k < |found| ensures IsRowOf(entries, dump, EntryRow(entries, entry, found[k]), i) {
        EntryRowShows(entries, entry, found[k]);
        assert found[k] in dump;
      }
      if found == [] {
        RowDescribes(entry, "*", "*", "*");
        forall e | e in dump ensures e.source != entry.swIfIndex { assert e !in found; }
      }
    }
  }

  /** `at` gives the interface of every row, in the order of the interface list. */
  ghost predicate InOrder(at: seq<nat>, n: nat) {
    (forall r :: 0 <= r < |at| ==> at[r] < n) && forall r, q :: 0 <= r < q < |at| ==> at[r] <= at[q]
  }

  /** Every row of a listing shows an interface that can be mirrored, and one of its entries or stars. */
  lemma {:induction false} ListingRows(entries: seq<Interface>, dump: seq<SpanEntry>, n: nat) returns (at: seq<nat>)
    requires n <= |entries|
    ensures |at| == |Blocks(entries, dump, n)| && InOrder(at, n)
    ensures forall r :: 0 <= r < |at| ==> IsRowOf(entries, dump, Blocks(entries, dump, n)[r], at[r])
  {
    hide Block, IsRowOf;
    if n == 0 {
      at := [];
    } else {
      var before := ListingRows(entries, dump, n - 1);
      var block := Block(entries, entries[n - 1], dump);
      BlockRows(entries, dump, n - 1);
      at := before + seq(|block|, _ => n - 1);
      forall r | 0 <= r < |at| ensures IsRowOf(entries, dump, Blocks(entries, dump, n)[r], at[r]) {
        if r >= |before| { assert Blocks(entries, dump, n)[r] == block[r - |before|] && at[r] == n - 1; }
      }
    }
  }

  // ----- the listing and the SPAN map -----

  /** Some entry of the map comes from this source. */
  ghost predicate Mirrored(span: SpanMap, source: nat) { exists k :: k in span && k.source == source }

  lemma MatchingMirrored(dump: seq<SpanEntry>, span: SpanMap, source: nat)
    requires IsDump(dump, span)
    ensures Matching(dump, source) != [] <==> Mirrored(span, source)
  {
    KeysOfMatching(dump, span, source);
    var found := Matching(dump, source);
    if found != [] { assert found[0].Key() in Keys(found); }
  }

  /** One interface more: a candidate without entries counts once. */
  lemma LonelyNext(entries: seq<Interface>, dump: seq<SpanEntry>, n: nat, source: nat)
    requires 0 < n <= |entries|
    ensures var last := entries[n - 1];
      multiset(Lonely(entries, dump, n))[source] == multiset(Lonely(entries, dump, n - 1))[source]
        + if last.swIfIndex == source && IsSpanSourceCandidate(last) && Matching(dump, source) == [] then 1 else 0
  {
    hide Matching, IsSpanSourceCandidate;
    AppendCount(Lonely(entries, dump, n - 1), entries[n - 1].swIfIndex, source);
  }

  /** Every candidate that nothing in the map comes from is listed as lonely exactly once. */
  lemma {:induction false} LonelyCount(entries: seq<Interface>, dump: seq<SpanEntry>, span: SpanMap, n: nat,
                                       source: nat)
    requires n <= |entries| && UniqueIndices(entries) && IsDump(dump, span)
    ensures multiset(Lonely(entries, dump, n))[source]
         == if CandidateSource(entries, source, n) && !Mirrored(span, source) then 1 else 0
  {
    hide IsDump, Matching, Mirrored, CandidateSource, IsSpanSourceCandidate, UniqueIndices, Lonely;
    if n == 0 {
      NoCandidates(entries, dump, source);
    } else {
      LonelyCount(entries, dump, span, n - 1, source);
      LonelyNext(entries, dump, n, source);
      MatchingMirrored(dump, span, source);
      CandidateNext(entries, source, n);
    }
  }

  lemma AppendCount(s: seq<nat>, last: nat, x: nat)
    ensures multiset(s + [last])[x] == multiset(s)[x] + if last == x then 1 else 0
    ensures multiset(s + [])[x] == multiset(s)[x]
  {
    assert s + [] == s;
  }

  lemma NoCandidates(entries: seq<Interface>, dump: seq<SpanEntry>, source: nat)
    ensures !CandidateSource(entries, source, 0) && Lonely(entries, dump, 0) == []
  {
  }

  lemma {:induction false} DumpCount(dump: seq<SpanEntry>, e: SpanEntry)
    requires DistinctKeys(dump)
    ensures multiset(dump)[e] == if e in dump then 1 else 0
  {
    if dump != [] {
      var n := |dump| - 1;
      assert dump == dump[..n] + [dump[n]];
      DumpCount(dump[..n], e);
    }
  }

  /** An entry of the map whose source is a candidate. */
  ghost predicate InMap(entries: seq<Interface>, span: SpanMap, e: SpanEntry) {
    e.Key() in span && span[e.Key()] == e.state && CandidateSource(entries, e.source, |entries|)
  }

  /** The join holds every entry of the map with a candidate source exactly once, and nothing else. */
  lemma JoinIsSpanMap(entries: seq<Interface>, dump: seq<SpanEntry>, span: SpanMap, e: SpanEntry)
    requires UniqueIndices(entries) && IsDump(dump, span)
    ensures multiset(Join(entries, dump, |entries|))[e] == if InMap(entries, span, e) then 1 else 0
  {
    hide IsDump, UniqueIndices, CandidateSource;
    JoinCount(entries, dump, |entries|, e);
    DumpIsDistinct(dump, span);
    DumpCount(dump, e);
    var _ := DumpIsSound(dump, span);
    if e.Key() in span {
      DumpIsComplete(dump, span, e.Key());
    }
  }

  ghost predicate KnownDestinations(entries: seq<Interface>, span: SpanMap) {
    forall k :: k in span ==> PositionOfIndex(entries, k.dest).Some?
  }

  lemma MapIsReadable(entries: seq<Interface>, dump: seq<SpanEntry>, span: SpanMap)
    requires IsDump(dump, span) && NoDisabled(span) && KnownDestinations(entries, span)
    ensures Readable(entries, dump)
  {
    hide PositionOfIndex;
    var _ := DumpIsSound(dump, span);
    assert forall i :: 0 <= i < |dump| ==> dump[i].Key().dest == dump[i].dest;
  }

  /** Every row describes the interface that `at` gives for it, in the order of the interface list. */
  ghost predicate Owners(entries: seq<Interface>, rows: seq<seq<string>>, at: seq<nat>) {
    && |at| == |rows| && InOrder(at, |entries|)
    && forall r :: 0 <= r < |at| ==> CanBeMirrored(entries[at[r]]) && Describes(rows[r], entries[at[r]])
  }

  /**
    The rows read as the map: every entry of a candidate once, and one row of stars per candidate
    without. They go through the candidates in order, and each describes its interface.
  */
  ghost predicate RowsShowMap(entries: seq<Interface>, span: SpanMap, rows: seq<seq<string>>) {
    && Rectangular(COLUMNS, rows)
    && (exists at :: Owners(entries, rows, at))
    && (forall e :: multiset(DecodeRows(entries, rows))[e] == if InMap(entries, span, e) then 1 else 0)
    && forall source :: multiset(StarSources(rows))[source]
         == if CandidateSource(entries, source, |entries|) && !Mirrored(span, source) then 1 else 0
  }

  /** The rows of a listing, read with the interface list, are the SPAN map of the candidates. */
  lemma ListingShowsMap(entries: seq<Interface>, dump: seq<SpanEntry>, span: SpanMap)
    requires UniqueIndices(entries) && UniqueNames(entries) && IsDump(dump, span)
    requires NoDisabled(span) && KnownDestinations(entries, span)
    ensures RowsShowMap(entries, span, SpanRows(entries, dump))
  {
    hide IsDump, UniqueIndices, UniqueNames, CandidateSource, Mirrored, InMap, Join, Lonely;
    hide DecodeRows, StarSources, Blocks, NoDisabled, KnownDestinations;
    MapIsReadable(entries, dump, span);
    ListingDecodes(entries, dump);
    StarRowsExact(entries, dump, |entries|);
    var rows := SpanRows(entries, dump);
    var at := ListingRows(entries, dump, |entries|);
    assert Owners(entries, rows, at);
    forall e ensures multiset(DecodeRows(entries, rows))[e] == if InMap(entries, span, e) then 1 else 0 {
      JoinIsSpanMap(entries, dump, span, e);
    }
    forall source
      ensures multiset(StarSources(rows))[source]
           == if CandidateSource(entries, source, |entries|) && !Mirrored(span, source) then 1 else 0
    {
      LonelyCount(entries, dump, span, |entries|, source);
    }
  }

  // ----- reading the printed text -----

  /** Names and device types as VPP gives them: one line, no blanks at the edges; indices have 32 bits. */
  ghost predicate PlainTexts(entries: seq<Interface>) {
    forall i :: 0 <= i < |entries| ==>
      && PlainText(entries[i].name) && PlainText(entries[i].devType) && entries[i].swIfIndex < 0x1_0000_0000
  }

  ghost predicate PlainText(s: string) { '\n' !in s && NoEdgeBlanks(s) }

  /** A cell that the listing prints in full: plain, and within the limit of its column. */
  ghost predicate PlainRow(row: seq<string>) {
    && |row| == |COLUMNS|
    && forall j :: 0 <= j < |COLUMNS| ==>
         PlainText(row[j]) && (COLUMNS[j].maxWidth == 0 || |row[j]| <= COLUMNS[j].maxWidth)
  }

  lemma {:induction false} DecimalLength(n: nat, bound: nat, digits: nat)
    requires digits > 0 && n < bound && bound == Power10(digits)
    ensures |Decimal(n)| <= digits
  {
    if n >= 10 {
      assert bound == 10 * Power10(digits - 1);
      DecimalLength(n / 10, Power10(digits - 1), digits - 1);
    }
  }

  function Power10(k: nat): nat { if k == 0 then 1 else 10 * Power10(k - 1) }

  lemma IndexFits(n: nat)
    requires n < 0x1_0000_0000
    ensures |Decimal(n)| <= 10 && PlainText(Decimal(n))
  {
    assert Power10(10) == 10_000_000_000 by {
      assert Power10(5) == 100_000;
      assert Power10(8) == 1000 * Power10(5);
    }
    DecimalLength(n, Power10(10), 10);
  }

  lemma RowIsPlain(entry: Interface, destination: string, device: string, l2: string)
    requires PlainText(entry.name) && PlainText(entry.devType) && entry.swIfIndex < 0x1_0000_0000
    requires PlainText(destination) && PlainText(device) && PlainText(l2) && |device| <= 8 && |l2| <= 8
    ensures PlainRow(SpanRow(entry, destination, device, l2))
  {
    hide Decimal;
    IndexFits(entry.swIfIndex);
    assert PlainText(TypeText(entry.ifType));
  }

  lemma NameIsPlain(entries: seq<Interface>, index: nat)
    requires PlainTexts(entries)
    ensures PlainText(NameOfIndex(entries, index))
  {
  }

  lemma EntryRowIsPlain(entries: seq<Interface>, entry: Interface, e: SpanEntry)
    requires PlainTexts(entries) && PlainTexts([entry])
    ensures PlainRow(EntryRow(entries, entry, e)) && PlainRow(StarRow(entry))
  {
    hide PlainRow, NameOfIndex, SpanRow;
    assert PlainTexts([entry]) && [entry][0] == entry;
    NameIsPlain(entries, e.dest);
    var device, l2 := if e.l2 then "*" else DeviceText(e.state), L2Text(e.state, e.l2);
    assert PlainText("*") && PlainText(DeviceText(e.state));
    RowIsPlain(entry, NameOfIndex(entries, e.dest), device, l2);
    RowIsPlain(entry, "*", "*", "*");
  }

  ghost predicate PlainRows(rows: seq<seq<string>>) { forall i :: 0 <= i < |rows| ==> PlainRow(rows[i]) }

  lemma BlockIsPlain(entries: seq<Interface>, entry: Interface, span: seq<SpanEntry>)
    requires PlainTexts(entries) && PlainTexts([entry])
    ensures PlainRows(Block(entries, entry, span))
  {
    hide PlainRow, PlainTexts, EntryRow, StarRow, Matching, IsSpanSourceCandidate;
    var rows, found := Block(entries, entry, span), Matching(span, entry.swIfIndex);
    EntryRowIsPlain(entries, entry, SpanEntry(0, 0, Rx, false));
    forall i | 0 <= i < |found| ensures PlainRow(EntryRow(entries, entry, found[i])) {
      EntryRowIsPlain(entries, entry, found[i]);
    }
  }

  lemma {:induction false} BlocksArePlain(entries: seq<Interface>, span: seq<SpanEntry>, n: nat)
    requires PlainTexts(entries) && n <= |entries|
    ensures PlainRows(Blocks(entries, span, n))
  {
    hide PlainRow, Block;
    if n > 0 {
      BlocksArePlain(entries, span, n - 1);
      assert PlainTexts([entries[n - 1]]);
      BlockIsPlain(entries, entries[n - 1], span);
    }
  }

  lemma PlainRowsFit(rows: seq<seq<string>>, j: nat)
    requires PlainRows(rows) && j < |COLUMNS|
    ensures Rectangular(COLUMNS, rows)
    ensures COLUMNS[j].maxWidth == 0 || ContentWidth(COLUMNS[j], rows, j) <= COLUMNS[j].maxWidth
  {
    ContentWidthIsLongest(COLUMNS[j], rows, j);
  }

  lemma HeadersArePlain(j: nat)
    requires j < |COLUMNS|
    ensures PlainText(COLUMNS[j].HeaderText())
  {
  }

  /**
    On a terminal wide enough for the listing, its printed text, read with the interface list,
    gives every SPAN entry of every candidate, in order.
  */
  lemma PrintedListingDecodes(entries: seq<Interface>, span: seq<SpanEntry>, available: nat)
    requires UniqueNames(entries) && Readable(entries, span) && PlainTexts(entries)
    requires Rectangular(COLUMNS, SpanRows(entries, span))
    requires LineWidth(NaturalWidths(COLUMNS, SpanRows(entries, span))) <= available < SIZE_MOD
    ensures var read := DecodeTable(Listing(entries, span, available));
      && read == Some(Contents(Headers(COLUMNS), SpanRows(entries, span)))
      && DecodeRows(entries, read.value.rows) == Join(entries, span, |entries|)
  {
    hide DecodeTable, DecodeRows, Join, NaturalWidths, FinalWidths, TableLines, Unlines, Blocks;
    hide LineWidth, ContentWidth;
    hide UniqueNames, Readable, PlainTexts;
    var rows := SpanRows(entries, span);
    ListingDecodes(entries, span);
    BlocksArePlain(entries, span, |entries|);
    forall j | 0 <= j < |COLUMNS|
      ensures PlainText(COLUMNS[j].HeaderText())
      ensures COLUMNS[j].maxWidth == 0 || ContentWidth(COLUMNS[j], rows, j) <= COLUMNS[j].maxWidth
    {
      HeadersArePlain(j);
      PlainRowsFit(rows, j);
    }
    forall i, j | 0 <= i < |rows| && 0 <= j < |COLUMNS| ensures PlainText(rows[i][j]) {
      assert PlainRow(rows[i]);
    }
    FittingTableRoundTrip(COLUMNS, rows, available);
  }

  /** The printed text of a listing, read with the interface list, is the SPAN map of the candidates. */
  lemma PrintedListingShowsMap(entries: seq<Interface>, dump: seq<SpanEntry>, span: SpanMap, available: nat)
    requires UniqueIndices(entries) && UniqueNames(entries) && PlainTexts(entries) && IsDump(dump, span)
    requires NoDisabled(span) && KnownDestinations(entries, span)
    requires Rectangular(COLUMNS, SpanRows(entries, dump))
    requires LineWidth(NaturalWidths(COLUMNS, SpanRows(entries, dump))) <= available < SIZE_MOD
    ensures var read := DecodeTable(Listing(entries, dump, available));
      && read.Some? && RowsShowMap(entries, span, read.value.rows)
      && read.value.header
         == ["Interface Name", "If-Index", "If-Type", "Dev-Type", "Destination", "Device", "L2"]
  {
    hide RowsShowMap, DecodeTable, Listing, SpanRows, UniqueIndices, UniqueNames, PlainTexts, IsDump;
    hide NoDisabled, KnownDestinations, LineWidth, NaturalWidths, Readable;
    MapIsReadable(entries, dump, span);
    PrintedListingDecodes(entries, dump, available);
    ListingShowsMap(entries, dump, span);
    ListingTitles();
  }

  lemma ListingTitles()
    ensures Headers(COLUMNS) == ["Interface Name", "If-Index", "If-Type", "Dev-Type", "Destination", "Device", "L2"]
  {
  }

  /** A map that is safe for an interface list has only destinations on the list, whatever their admin state. */
  lemma SafeMapIsKnown(entries: seq<Interface>, now: seq<Interface>, span: SpanMap)
    requires SafeMap(entries, span) && SameButAdmin(now, entries)
    ensures KnownDestinations(now, span)
  {
    forall k | k in span ensures PositionOfIndex(now, k.dest).Some? {
      var p :| 0 <= p < |entries| && entries[p].swIfIndex == k.dest && "memif" <= entries[p].name;
      assert now[p].swIfIndex == k.dest;
    }
  }

  /**
    After any run of set and unset commands from an empty map, whatever failed on the way, the
    listing is the SPAN map of the candidates.
  */
  lemma RunThenListing(states: seq<VppState>, log: seq<Done>, dump: seq<SpanEntry>)
    requires IsRun(states, log) && states[0].span == map[]
    requires var last := states[|log|];
      UniqueIndices(last.interfaces) && UniqueNames(last.interfaces) && IsDump(dump, last.span)
    ensures var last := states[|log|];
      RowsShowMap(last.interfaces, last.span, SpanRows(last.interfaces, dump))
  {
    hide Step, UniqueIndices, UniqueNames, IsDump, RowsShowMap, SpanRows, SafeKey, Expected;
    RunsAreSafe(states, log);
    var entries, last := states[0].interfaces, states[|log|];
    assert SafeMap(entries, last.span);
    SafeMapIsKnown(entries, last.interfaces, last.span);
    ListingShowsMap(last.interfaces, dump, last.span);
  }
}
