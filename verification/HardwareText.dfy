/**
  The text that `show hardware-interfaces` prints, line by line: trimming,
  classifying and scanning as boy/commands/phy_cmd.c does it.
*/
module HardwareText {
  import opened Strings
  import opened Sums

  const FAMILY_FIELD: nat := 64
  const ETHERNET := "Ethernet address "
  const CARRIER := "carrier "

  predicate IsIndent(ch: char) { ch == ' ' || ch == '\t' }

  predicate IsTrailing(ch: char) { ch == ' ' || ch == '\t' || ch == '\r' }

  /** `isspace` in the C locale. */
  predicate IsSpace(ch: char) { ch == ' ' || '\t' <= ch <= '\r' }

  function RTrimmed(s: string): (r: string)
    ensures r <= s && (r != "" ==> !IsTrailing(r[|r| - 1]))
    ensures forall i :: |r| <= i < |s| ==> IsTrailing(s[i])
  {
    if s != "" && IsTrailing(s[|s| - 1]) then RTrimmed(s[..|s| - 1]) else s
  }

  function IndentOf(s: string): (n: nat)
    ensures n <= |s| && (forall i :: 0 <= i < n ==> IsIndent(s[i])) && (n < |s| ==> !IsIndent(s[n]))
  {
    if s != "" && IsIndent(s[0]) then 1 + IndentOf(s[1..]) else 0
  }

  /** The line without trailing blanks and without its indentation. */
  function Body(line: string): string {
    var s := RTrimmed(line);
    s[IndentOf(s)..]
  }

  predicate IsBlank(line: string) { Body(line) == "" }

  /** An unindented line opens a section. */
  predicate IsHeader(line: string) { !IsBlank(line) && !IsIndent(RTrimmed(line)[0]) }

  predicate IsEthernet(line: string) { !IsHeader(line) && ETHERNET <= Body(line) }

  /** A body line that can name a card family. */
  predicate IsFamily(line: string) {
    !IsBlank(line) && !IsHeader(line) && !IsEthernet(line) && ':' !in Body(line) && !(CARRIER <= Body(line))
  }

  /** What fits in the `card_family` field. */
  function FamilyOf(line: string): (r: string)
    ensures |r| <= FAMILY_FIELD
  {
    var body := Body(line);
    if |body| > FAMILY_FIELD then body[..FAMILY_FIELD] else body
  }

  // ----- sscanf(line, "%64s %u %15s", ...) -----

  function SkipSpace(s: string): string {
    if s != "" && IsSpace(s[0]) then SkipSpace(s[1..]) else s
  }

  /** The length of the word at the start of `s`, at most `max`. */
  function WordLength(s: string, max: nat): (n: nat)
    ensures n <= |s| && n <= max && forall i :: 0 <= i < n ==> !IsSpace(s[i])
    ensures n < |s| && n < max ==> IsSpace(s[n])
  {
    if s != "" && max > 0 && !IsSpace(s[0]) then 1 + WordLength(s[1..], max - 1) else 0
  }

  function DigitsLength(s: string): (n: nat)
    ensures n <= |s| && forall i :: 0 <= i < n ==> IsDigit(s[i])
    ensures n < |s| ==> !IsDigit(s[n])
  {
    if s != "" && IsDigit(s[0]) then 1 + DigitsLength(s[1..]) else 0
  }

  /** `%<max>s`: the word and what follows it. */
  function ScanWord(s: string, max: nat): Option<(string, string)> {
    var t := SkipSpace(s);
    var n := WordLength(t, max);
    if n == 0 then None else Some((t[..n], t[n..]))
  }

  /** `%u`: an optional sign and digits; what follows them. */
  function ScanUnsigned(s: string): Option<string> {
    var t := SkipSpace(s);
    var u := if t != "" && (t[0] == '+' || t[0] == '-') then t[1..] else t;
    var n := DigitsLength(u);
    if n == 0 then None else Some(u[n..])
  }

  /** The interface name, when all three conversions succeed. */
  function ScanHeader(line: string): Option<string> {
    var name := ScanWord(line, 64);
    if name.None? then None
    else
      var afterIndex := ScanUnsigned(name.value.1);
      if afterIndex.None? then None
      else if ScanWord(afterIndex.value, 15).None? then None
      else Some(name.value.0)
  }

  // ----- lines -----

  function Lines(text: string): seq<string>
    decreases |text|
  {
    var n := Find(text, '\n');
    if n == |text| then [text] else [text[..n]] + Lines(text[n + 1..])
  }

  function NonBlank(lines: seq<string>): (r: seq<string>)
    ensures forall i :: 0 <= i < |r| ==> !IsBlank(r[i])
  {
    if lines == [] then []
    else (if IsBlank(lines[0]) then [] else [lines[0]]) + NonBlank(lines[1..])
  }

  /** The lines the parser looks at. */
  function Content(text: string): seq<string> { NonBlank(Lines(text)) }

  lemma {:induction false} NonBlankConcat(a: seq<string>, b: seq<string>)
    ensures NonBlank(a + b) == NonBlank(a) + NonBlank(b)
  {
    if a == [] {
      assert a + b == b;
    } else {
      assert (a + b)[1..] == a[1..] + b;
      NonBlankConcat(a[1..], b);
    }
  }

  lemma FindConcat(a: string, b: string)
    ensures Find(a + "\n" + b, '\n') == Find(a, '\n')
  {
    var text, n := a + "\n" + b, Find(a, '\n');
    assert forall i :: 0 <= i < n ==> text[i] == a[i] != '\n';
    assert text[n] == '\n';
  }

  lemma {:induction false} LinesConcat(a: string, b: string)
    ensures Lines(a + "\n" + b) == Lines(a) + Lines(b)
    decreases |a|
  {
    var text, n := a + "\n" + b, Find(a, '\n');
    FindConcat(a, b);
    assert text[..n] == a[..n];
    if n == |a| {
      assert a[..n] == a && text[n + 1..] == b;
    } else {
      assert text[n + 1..] == a[n + 1..] + "\n" + b;
      LinesConcat(a[n + 1..], b);
    }
  }

  /** The content of two texts on top of each other. */
  lemma ContentConcat(a: string, b: string)
    ensures Content(a + "\n" + b) == Content(a) + Content(b)
  {
    LinesConcat(a, b);
    NonBlankConcat(Lines(a), Lines(b));
  }

  lemma ContentOfLine(line: string)
    requires '\n' !in line
    ensures Content(line) == if IsBlank(line) then [] else [line]
  {
    assert Find(line, '\n') == |line|;
    var lines := [line];
    assert Lines(line) == lines && lines[1..] == [] && NonBlank(lines[1..]) == [];
  }

  lemma ContentOfEmpty()
    ensures Content("") == []
  {
    ContentOfLine("");
  }
}
