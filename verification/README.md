# beastie and boy: a verified model

Two C programs work around VPP, the packet processor: `beastie` captures packets from a shared
memory interface into a PCAP file, and `boy` lists interfaces and configures SPAN mirroring. This
project models their four stateful cores in Dafny and proves what they promise.

| file | models |
|---|---|
| `TableWidths.dfy`, `TableLayout.dfy` | measuring, clamping and shrinking columns (`common/table.c`) |
| `WaterLevel.dfy` | the arithmetic of taking units from columns in rounds |
| `TableText.dfy`, `TableCells.dfy`, `TableDecode.dfy` | printing a table, what stands where in it, and reading the printed text back |
| `Memory.dfy`, `Growth.dfy`, `TableStore.dfy`, `Collectors.dfy` | the growing stores, on a heap where every allocation may fail |
| `HardwareText.dfy`, `PhyOverride.dfy`, `PhyTheorems.dfy` | the `show hardware-interfaces` parser (`boy/commands/phy_cmd.c`) |
| `PcapWriter.dfy`, `Capture.dfy`, `CaptureTheorems.dfy`, `CaptureLimit.dfy`, `ProgressBar.dfy` | a capture run (`beastie/commands/capture_cmd.c`, `beastie/pcap_writer.c`) |
| `Interfaces.dfy`, `Vpp.dfy`, `SpanCommands.dfy`, `SpanTheorems.dfy` | setting and unsetting SPAN entries (`boy/commands/span_cmd.c`) |
| `SpanListing.dfy`, `SpanLayout.dfy`, `SpanDecode.dfy` | listing SPAN entries, how the listing stands on the terminal, and reading it back |
| `Sums.dfy`, `Strings.dfy` | sums of sequences, searching, decimal numbers |

How the C state appears here:

- A `size_t` or `uint64_t` sum that can wrap is written with its `%`: `Excess` (the width sum of a
  table), `Add64` (the capture counters), `Filled` (the product in the progress bar).
- An allocation, and a system or API call, succeeds or fails by an arbitrary choice or by a
  parameter. A parameter `Outcome` says how a VPP request ends; only `Reply(0)` has an effect. The
  heap counts failed allocations (`refused`), and every contract that allows a failure names its
  cause: a failed allocation, an incomplete dump, or the request that was not granted.
- The poll loop runs on a script of events. One event holds at most one call of `on_interrupt`. A
  signal is placed inside the poll or behind the test at line 240; where inside the poll, between
  two packets included, makes no difference (`SignalPlaceIrrelevant`).
- A poll receives at most 256 packets (`Received`), each of a 32-bit length.
- The terminal width is a parameter, and an output stream keeps its text.
- A heap block is a number that is handed out once. Releasing it requires it to be live.

Where a natural claim about the code is false, the project keeps the code and states exactly when
the claim holds:

- Every run keeps its byte limit exactly when the limit is at most 2^64 - 2^32 + 1, so that adding
  one packet cannot wrap (`LimitHonoured`); for every larger limit `OverrunExceeds` gives a script
  of polls with one packet each.
- The bar of a complete capture is full exactly for limits below 2^59 (`FullBarAtLimit`);
  every limit is reached by some run, and `EmptyBarExample` shows the bar of such a run empty at 2^59.
- The shrink loop works with the true excess exactly when the width sum stays below 2^64
  (`ExcessExact`); `WrappedSumExample` shows two columns that are not shrunk at all.
- A printed table reads back as its contents exactly when no text was truncated, has a blank at an
  edge, or holds a newline (`TableRoundTrip`); `NewlineExample` shows a header on two lines.
- The file is the longest prefix of the delivered packets within the limit exactly when the script
  neither denies the file to the first admitted packet (`OpenFails`) nor reaches the limit right
  before an empty packet of the same burst (`EndsOnEmpty`); both are read off the script
  (`FileIsLongestFit`). `WriteFailureExample` and `EmptyPacketExample` show the two failing cases.
  With a limit, this assumes that the byte count does not wrap: fewer than 2^64 bytes are delivered,
  or the limit is one of those above.
- A failed packet write ends the run with exit code 0 (`WriteFailureExitsZero`), because line 240
  leaves the loop before the error test.

## Model

| member | source | states |
|---|---|---|
| TableWidths.ClampWidth | common/table.c:77-86 | the maximum wins over the minimum: the result is below the minimum exactly when the maximum is, and differs from the width only to meet one of the two bounds |
| TableWidths.ContentWidthIsLongest | common/table.c:227-238 | the measured width is the length of some text of the column and no text is longer |
| TableWidths.NaturalWidthIs | common/table.c:227-246 | a column is as wide as its longest text, raised to its minimum and then cut to its maximum |
| TableWidths.Measure | common/table.c:227-246 | the loops compute the clamped longest lengths and their sum with gaps modulo 2^64 |
| TableWidths.FlexRound | common/table.c:254-263 | one round over the flexible columns advances the first water level by as many visits as overflow allows |
| TableWidths.HardRound | common/table.c:265-273 | one round over all columns advances the second water level, with floor three |
| TableWidths.Shrink | common/table.c:249-279 | the two-tier loop terminates and leaves the widths of the loop-free two-level specification |
| WaterLevel.LevelExists | common/table.c:251-263 | every amount up to the whole slack is the total of some water level |
| WaterLevel.LevelUnique | common/table.c:251-263 | two water levels of the same slack with the same total are the same |
| WaterLevel.LevelNext | common/table.c:251-263 | the level with one unit more differs at one column, by one |
| TableLayout.WaterLevels | common/table.c:248-279 | closed form: a flexible column loses min(what it has above its minimum, level), with the level one more before some position; when that is not enough, every column in the same way loses what it then has above three |
| TableLayout.ShrunkSum | common/table.c:248-279 | the widths sum up to the target, or to the floors when the target is below them |
| TableLayout.OneColumnNarrower | common/table.c:248-279 | one unit more of excess narrows exactly one column by one, or nothing when all are at their floor |
| TableLayout.TerminalOneNarrower | common/table.c:248-279 | a terminal one column narrower makes one table column narrower by one, or changes nothing when the table still fits or all columns are at their floor |
| TableLayout.FinalWidthsMonotone | common/table.c:248-279 | on a wider terminal no column is narrower |
| TableLayout.HardTierComesLast | common/table.c:265-273 | a column is taken below its first-tier floor only when every flexible column is at or below its minimum |
| TableLayout.ExcessExact | common/table.c:240-250 | the computed excess is the true one if and only if the width sum does not wrap |
| TableLayout.WrappedSumExample | common/table.c:240-250 | two columns of minimum width 2^64 - 1 have a sum that wraps to zero, so nothing is shrunk |
| TableLayout.FinalLineWidth | common/table.c:248-279 | a line is as long as the natural total, or else as the larger of the terminal and the floors, which are at most three and two blanks apart; it fits the terminal if and only if the floors do |
| TableLayout.FittingTableKeepsText | common/table.c:227-279 | a table that fits truncates nothing if and only if no column has a text longer than its maximum |
| TableText.PrintRepeated | common/table.c:88-95 | appends the character exactly that many times |
| TableText.PrintCell | common/table.c:97-127 | appends the shown part of the value, padded to the width on the side the alignment says: a value that fits stands whole on its side, a longer one is cut to width - 3 characters and three dots, or to the width when that is at most three |
| TableText.CellDisplays | common/table.c:97-127 | the same of every cell of a printed line |
| TableText.Render | common/table.c:208-310 | appends header, rule and rows at the final widths, or nothing without columns or memory |
| TableCells.PrintedCells | common/table.c:281-307 | in the printed lines every header stands on the left of its column, every text on the side its column asks for, the rule fills the column, and two blanks separate columns, for any widths and texts |
| TableDecode.RuleGivesWidths | common/table.c:290-296 | the rule line determines all column widths, zero widths included |
| TableDecode.CellRoundTrip | common/table.c:97-127 | a printed cell trims back to its value if and only if it was not truncated and has no blank at an edge, for both alignments |
| TableDecode.PrintedLines | common/table.c:281-307 | for texts without newlines the text splits back into the printed lines, all of the same length |
| TableDecode.LinesFillTerminal | common/table.c:208-310 | for texts without newlines every line has the length given by natural total, terminal width and floors |
| TableDecode.DecodePrinted | common/table.c:281-307 | for texts without newlines and at any widths the text decodes to the trimmed visible part of every header and cell |
| TableDecode.TableRoundTrip | common/table.c:281-307 | the text decodes to exactly the stored headers and cells if and only if every one was kept and holds no newline |
| TableDecode.NewlineExample | common/table.c:97-127 | a header with a newline is kept whole and yet not read back |
| TableDecode.FittingTableRoundTrip | common/table.c:208-310 | on a wide enough terminal the text decodes to the stored headers and cells if and only if no column maximum cuts one and none has a blank at an edge or a newline |
| Growth.GrownCapacity | common/table.c:36-43 | the new capacity is the smallest doubling of the first try that is enough |
| Growth.GrowthAmortised | common/table.c:31-53 | growing a full store keeps the capacity 0 or 8 times a power of two and the copy count within its bound |
| Growth.CopiesBounded | boy/collectors.c:13-36 | the slots copied by all reallocations are at most twice the stored elements |
| TableStore.Table.Init | common/table.c:129-149 | without columns nothing is touched; otherwise whatever the table held is overwritten, success stores the columns, failure leaves an empty table, and every block that was live stays live and is not owned |
| TableStore.Table.ReserveRows | common/table.c:31-53 | the rows survive growth and failed growth, and nothing is leaked |
| TableStore.Table.FillRow | common/table.c:191-202 | all texts of the row are copied into fresh blocks, or every block of the row is released |
| TableStore.Table.AddRow | common/table.c:172-206 | success appends the row; it fails only for a failed allocation, and then leaves all rows and the count; in both cases the heap holds nothing new that the table does not own |
| TableStore.StoredTexts | common/table.c:14-29 | a row keeps its texts, and the empty text for a missing one |
| TableStore.Table.Free | common/table.c:151-170 | releases exactly the blocks of the table |
| TableStore.Table.Render | common/table.c:208-310 | prints the stored rows, which have one cell per column |
| TableStore.Lifetime | common/table.c:129-206 | init, any appends with any outcome, free: the store is the sequence of accepted rows, every block handed out is released, once, and there are as many failures as failed allocations |
| Collectors.EntryTable.Append | boy/collectors.c:207-234 | one reply is appended, unless an allocation failed; then nothing changes |
| Collectors.EntryTable.Collect | boy/collectors.c:287-307 | the command succeeds exactly when the request was sent, the dump completed and no allocation failed; without a failed allocation all replies are appended in order, otherwise a prefix |
| Collectors.EntryTable.Free | boy/collectors.c:38-60 | the block of the table is released and the table is empty |
| Interfaces.FindByIndex | boy/commands/span_cmd.c:91-103 | the first entry with the index, if any |
| Interfaces.FindByName | boy/commands/span_cmd.c:105-117 | the first entry with the name, if any |
| HardwareText.ContentConcat | boy/commands/phy_cmd.c:136-149 | the non-blank lines of two texts on top of each other are those of the first and those of the second |
| PhyOverride.RTrim | boy/commands/phy_cmd.c:105-116 | cuts the buffer in place to the line without trailing blanks and touches nothing behind it |
| PhyOverride.NextToken | boy/commands/phy_cmd.c:136-137 | the next non-empty line and a rest that together have the content of what was left |
| PhyOverride.ProcessLine | boy/commands/phy_cmd.c:143-180 | one line takes the automaton and the table to what the specification says after that line |
| PhyOverride.OverrideCardFamily | boy/commands/phy_cmd.c:118-184 | the single pass overwrites exactly the families that the specification without automaton gives, whenever the text can be copied |
| PhyTheorems.OwnerIsLastHeader | boy/commands/phy_cmd.c:151-162 | a line belongs to what the last header before it resolves to |
| PhyTheorems.NoHeaderNoOwner | boy/commands/phy_cmd.c:124-166 | before the first header no line belongs to an interface |
| PhyTheorems.LastNamingLineWins | boy/commands/phy_cmd.c:164-180 | a family is the last line that names it: right after an Ethernet line, in a section of that interface |
| PhyTheorems.UnnamedFamilyStays | boy/commands/phy_cmd.c:164-180 | a family that no line names is unchanged |
| PhyTheorems.OverrideComposesOnText | boy/commands/phy_cmd.c:118-184 | overriding with two texts on top of each other is overriding with one and then the other, when the second starts with an unindented line |
| PhyTheorems.OverrideIdempotent | boy/commands/phy_cmd.c:118-184 | applying the same output twice is applying it once |
| PhyTheorems.HeaderIsHeader | boy/commands/phy_cmd.c:138-158 | a header printed from name, index and link, with any white space between them, scans back to its name, whatever follows it |
| PhyTheorems.HeaderFields | boy/commands/phy_cmd.c:128-152 | only a line with a word of at most 64 characters in front and a digit behind it names an interface |
| PhyTheorems.BodyOfText | boy/commands/phy_cmd.c:105-149 | trimming a text between any indentation of blanks and tabs and any trailing blanks, tabs and returns gives the text, and the line is no header |
| PhyTheorems.CardLineIs | boy/commands/phy_cmd.c:168-180 | the line below an Ethernet line names its first 64 characters as the family, unless it has a colon or starts with "carrier " |
| PhyTheorems.AddressedIs | boy/commands/phy_cmd.c:153-156 | a section is about the first interface of its name, if that is hardware and neither local0 nor a memif |
| PhyTheorems.OneSection | boy/commands/phy_cmd.c:136-181 | one printed section sets the family of the interface it is about, if it prints one, and nothing else; sections without an Ethernet line, or with a line below it that is no family, set none |
| PhyTheorems.PrintThenOverride | boy/commands/phy_cmd.c:118-184 | after printing any sections and overriding, a hardware interface other than local0 and memifs, the first of its name, has the family that the last section of its name prints; every other family and every other field is unchanged |
| PcapWriter.Writer.WritePacket | beastie/pcap_writer.c:11-34 | the file is created by the first packet that can open it and grows by one record per call; a failure leaves no open handle |
| PcapWriter.Writer.Flush | beastie/pcap_writer.c:36-43 | success brings every record to the file; without an open file there is nothing to do |
| PcapWriter.Writer.Close | beastie/pcap_writer.c:45-59 | the session is back at its start and the file keeps its records |
| Capture.CaptureState.constructor | beastie/commands/capture_cmd.c:170-186 | the initial state of a run |
| Capture.CaptureState.CapturePacket | beastie/commands/capture_cmd.c:122-142 | one packet is rejected, fails, or is recorded and counted, with the stop conditions on both sides, whether or not a signal has come |
| Capture.CaptureState.OnInterrupt | beastie/commands/capture_cmd.c:108-168 | one burst, with its flush, as the run semantics has it; the result is zero exactly when receive, writes, flush and refill all succeeded |
| Capture.CaptureState.FlushIfDue | beastie/commands/capture_cmd.c:149-157 | a flush takes place from 1048576 unflushed bytes on and not before; success clears the count, failure stops the capture |
| Capture.CaptureState.Turn | beastie/commands/capture_cmd.c:238-247 | a turn fails exactly when the poll failed while the capture runs on; a cancelled poll goes on |
| Capture.CaptureState.PollLoop | beastie/commands/capture_cmd.c:238-247 | the loop computes the run of its events |
| Capture.CaptureState.RunCapture | beastie/commands/capture_cmd.c:188-267 | file, counters and exit code are those of the run: 0 exactly when no poll failed and the final flush had nothing to do or succeeded, 1 otherwise and without a connection; exit code 0 with an open file means that every byte of it was flushed |
| CaptureTheorems.AdmissionExact | beastie/commands/capture_cmd.c:122-126 | the admission test is the plain comparison for every count below the limit if and only if the limit is at most 2^64 - 2^32 + 1 |
| CaptureLimit.LimitHonoured | beastie/commands/capture_cmd.c:121-143 | every run writes at most as many bytes as the limit says if and only if the limit is at most 2^64 - 2^32 + 1 |
| CaptureLimit.OverrunExceeds | beastie/commands/capture_cmd.c:121-143 | for every larger limit a script of one packet per poll makes the file exceed it, while the counter stays below |
| CaptureLimit.LimitReached | beastie/commands/capture_cmd.c:121-143 | every limit is the exact byte count of some run, which exits with 0 when its final flush succeeds and with 1 when it fails |
| CaptureTheorems.LongestFitIsLongest | beastie/commands/capture_cmd.c:121-143 | no other prefix within the limit is longer than the longest fit |
| CaptureTheorems.PacketKeeps | beastie/commands/capture_cmd.c:121-143 | every packet keeps the file a prefix of what is delivered, and the counters exact as long as the byte count does not wrap |
| CaptureTheorems.FileIsPrefix | beastie/commands/capture_cmd.c:108-168 | in every run, without assumptions: the file is a prefix of the delivered packets, was created at most once and only for a record, and a running capture has captured all that was delivered and has less than 1 MiB unflushed |
| CaptureTheorems.FileIsLongestFit | beastie/commands/capture_cmd.c:108-168 | the file is the longest prefix within the limit if and only if the script does not deny the file to the first admitted packet and does not reach the limit right before an empty packet; without a limit and with the file opened nothing delivered is dropped; with a limit the byte count must not wrap |
| CaptureTheorems.PositiveLengthsLongestFit | beastie/commands/capture_cmd.c:108-168 | with packets of positive length the first condition alone decides |
| CaptureTheorems.EmptyPacketExample | beastie/commands/capture_cmd.c:138-142 | limit 1 and a one-byte packet before an empty one: the empty packet is dropped although it fits |
| CaptureTheorems.WriteFailsExactly | beastie/commands/capture_cmd.c:128-133 | a run fails to write a packet if and only if its script lets the first admitted packet find no file |
| CaptureTheorems.SignalPlaceIrrelevant | beastie/commands/capture_cmd.c:75-81 | a signal before the callback of a poll, after any number of packets of its burst, or behind it leads to the same state |
| CaptureTheorems.CountersAreExact | beastie/commands/capture_cmd.c:121-157 | in every reachable state whose byte count cannot have wrapped the byte counter is that of the file, the limit holds, and flushed and unflushed bytes add up; empty packets are allowed |
| CaptureTheorems.WriteFailureExitsZero | beastie/commands/capture_cmd.c:238-254 | every script that denies the file to the first admitted packet leaves no file and gives exit code 0 |
| CaptureTheorems.WriteFailureExample | beastie/commands/capture_cmd.c:128-133 | one packet and a file that cannot be opened give such a run |
| CaptureTheorems.ExitCodeExact | beastie/commands/capture_cmd.c:238-266 | the exit code of every script from its poll results, its file and its final flush |
| CaptureTheorems.FailedPollExitsOne | beastie/commands/capture_cmd.c:238-247 | a poll that fails while the capture runs ends it with exit code 1, whatever comes before and after |
| CaptureTheorems.FirstPollExitsOne | beastie/commands/capture_cmd.c:238-247 | a first poll that fails does so in every mode |
| CaptureTheorems.RunConcat | beastie/commands/capture_cmd.c:238-247 | a run on two scripts is the run of the second from the end of the first |
| CaptureTheorems.FileGrows | beastie/commands/capture_cmd.c:238-247 | later events only append to the file |
| ProgressBar.DrawBar | beastie/commands/capture_cmd.c:32-54 | mark i of 32 is set exactly when 32 times the bytes, modulo 2^64, is at least i + 1 times the limit; without a limit there is no mark |
| ProgressBar.BarTracksProgress | beastie/commands/capture_cmd.c:45-48 | without wrapping the fill is 32 times the bytes over the limit, rounded down; it grows with the bytes and is complete exactly at the limit |
| ProgressBar.FullBarAtLimit | beastie/commands/capture_cmd.c:45-48 | every limit is reached by a run, and the bar at the limit is full if and only if the limit is below 2^59 |
| ProgressBar.EmptyBarExample | beastie/commands/capture_cmd.c:45-48 | a run that reaches the limit 2^59 exactly has an empty bar |
| ProgressBar.BarOverRun | beastie/commands/capture_cmd.c:145-147 | over a run the bar never shrinks and is full exactly when the limit is reached |
| SpanCommands.SetSpanEntry | boy/commands/span_cmd.c:53-89 | the request succeeds, with its effect, exactly on a reply of zero |
| SpanCommands.SetSpan | boy/commands/span_cmd.c:291-367 | unacceptable endpoints change nothing; otherwise the command raises source and destination, each if it is down, and records the requested entry, up to the first request that is not granted; failure never changes the SPAN map; the heap is left as found |
| SpanCommands.RemoveEntries | boy/commands/span_cmd.c:252-272 | exactly the first matching entries are removed, all of them on success; a failure comes from the first request that is not granted |
| SpanCommands.UnsetSpan | boy/commands/span_cmd.c:225-289 | the command works on a complete dump and removes the entries of the source up to the first request that is not granted; it fails only there, or when the dumps are incomplete or an allocation failed; the heap is left as found |
| SpanTheorems.UnsetRemovesExactly | boy/commands/span_cmd.c:225-289 | after a successful unset the map is the old one without the entries of the source, of both kinds |
| SpanTheorems.UnsetCounts | boy/commands/span_cmd.c:252-280 | the counter is the number of entries gone, also after a failure, and only entries of the source go |
| SpanTheorems.UnsetSucceedsExactly | boy/commands/span_cmd.c:252-282 | on a complete dump the command succeeds if and only if the removal of every entry of the source is granted |
| SpanTheorems.SetThenUnset | boy/commands/span_cmd.c:225-367 | unset after set restores the map of a source without entries, with one removal |
| SpanTheorems.SetRaisesBoth | boy/commands/span_cmd.c:331-346 | after a successful set both endpoints are admin-up, no other interface was raised, nothing else changed, and the entry is there with state rx, tx or both as its mode says |
| SpanTheorems.SetSucceedsExactly | boy/commands/span_cmd.c:291-367 | with the interface list at hand a set succeeds if and only if the source is listed, the destination is another listed interface whose name starts with memif, and every request is granted |
| SpanTheorems.SourceIsRaisedFirst | boy/commands/span_cmd.c:331-346 | however a set ends, the destination is not raised before the source is up |
| SpanTheorems.RunsAreSafe | boy/commands/span_cmd.c:225-367 | in every run from an empty map, every entry is plain, enabled, goes to a memif other than its source and has the state last requested; without failing unsets the map is exactly what the log asks for |
| SpanTheorems.AnsweredRunsSucceed | boy/commands/span_cmd.c:225-367 | in a run with complete dumps and every request granted, every unset succeeds, a set fails only for its endpoints, and the map is what the commands ask for |
| SpanListing.AddBlock | boy/commands/span_cmd.c:173-209 | the rows of one interface are appended, a row of stars when it has no entry |
| SpanListing.ShowSpan | boy/commands/span_cmd.c:132-223 | success prints the listing of a complete dump, failure prints nothing and happens only for an incomplete dump or a failed allocation; on every path the printed table and both collected tables are released |
| SpanLayout.ListingCells | boy/commands/span_cmd.c:138-146 | in the printed rows the index stands on the right of its column and every other text on the left |
| SpanLayout.ListingShrinks | boy/commands/span_cmd.c:138-146 | on a narrower terminal only name, device type and destination give way, down to 14, 8 and 11 characters, as long as that is enough |
| SpanDecode.JoinCount | boy/commands/span_cmd.c:173-209 | every entry of a candidate is listed as often as it is in the dump, and no other entry is |
| SpanDecode.RowRoundTrip | boy/commands/span_cmd.c:18-33 | a row, read with the interface list, gives source, destination, state and L2 flag of its entry |
| SpanDecode.ListingDecodes | boy/commands/span_cmd.c:173-209 | the rows, read with the interface list, give the entries of every candidate, in order |
| SpanDecode.StarRowsExact | boy/commands/span_cmd.c:173-209 | in the whole listing the rows of stars stand, in order, for exactly the candidates without entries, for any dump |
| SpanDecode.ListingRows | boy/commands/span_cmd.c:18-33 | for any dump every row shows name, index, type and device type of a hardware or VLAN interface other than local0 and memifs, in the order of the interface list, with destination, device and L2 of one of its entries, or stars when it has none |
| SpanDecode.JoinIsSpanMap | boy/commands/span_cmd.c:160-209 | the listed entries are those of the SPAN map with a candidate source, each exactly once |
| SpanDecode.ListingShowsMap | boy/commands/span_cmd.c:160-209 | the rows describe the candidates in order and show every entry of every candidate in the SPAN map once, one row of stars for every candidate without one, and nothing else |
| SpanDecode.RunThenListing | boy/commands/span_cmd.c:132-367 | the same after any run of set and unset commands from an empty map, with no assumption on states or destinations |
| SpanDecode.PrintedListingDecodes | boy/commands/span_cmd.c:132-223 | on a wide enough terminal the printed text, together with the interface list, gives every entry of every candidate, in order |
| SpanDecode.PrintedListingShowsMap | boy/commands/span_cmd.c:132-223 | on a wide enough terminal the printed text, under its seven titles and together with the interface list, is the SPAN map of the candidates |

## Left out

- Terminal detection, the `main` functions, option parsing, logging, version and summary output: the width is a parameter, the rest is plumbing.
- `libmemif`, `libvapi` and `libpcap`: what they do is an event, an outcome or the contents of a file; packet headers and timestamps are not part of this model.
- More than one call of `on_interrupt` within one poll.
- `on_connect` and `on_disconnect`, and the percentage of the progress line.
- NULL tables, columns or cell arrays: callers in the repository never pass them.
- Overflow of the byte count in `realloc` for capacities near the end of the address space.
- Reusing a freed address: blocks are numbered and never handed out again.
- Errors of the output stream: the source ignores them.
- The width array of `app_table_render`: whether it can be allocated is a parameter, and it is not a block of the heap.
- The physical interface listing around the parser: link speed, MAC address and link state texts, and the rows of that table.
- `boy_copy_api_string`: names reach the model already cut to their field.
- `create-memif`, `show-memif` and `show-version`: they would add only easy members.
- PhyTheorems.PrintThenOverride: covers headers with white space between the fields and decimal indices, and Ethernet lines with a line below, as VPP prints them; `ScanHeader` itself also models signs, long names and words that run into each other.
- SpanTheorems.RunsAreSafe: keeps the interface list fixed up to admin state, as one VPP session without interface changes does.
