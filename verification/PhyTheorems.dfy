/** What the one-pass override of boy/commands/phy_cmd.c computes, section by section. */
module PhyTheorems {
  import opened HardwareText
  import opened Interfaces
  import opened PhyOverride
  import opened Strings
  import opened Sums

  // ----- the specification, read declaratively -----

  ghost predicate LastHeader(lines: seq<string>, h: nat) {
    h < |lines| && IsHeader(lines[h]) && forall k :: h < k < |lines| ==> !IsHeader(lines[k])
  }

  /** A section belongs to what its header names; every header closes the section before it. */
  lemma {:induction false} OwnerIsLastHeader(entries: seq<Interface>, lines: seq<string>, h: nat)
    requires LastHeader(lines, h)
    ensures Owner(entries, lines) == Target(entries, lines[h])
  {
    hide IsHeader, Target;
    var n := |lines| - 1;
    if h < n {
      var init := lines[..n];
      assert init[h] == lines[h] && forall k :: h < k < n ==> init[k] == lines[k];
      OwnerIsLastHeader(entries, init, h);
    }
  }

  lemma {:induction false} NoHeaderNoOwner(entries: seq<Interface>, lines: seq<string>)
    requires forall k :: 0 <= k < |lines| ==> !IsHeader(lines[k])
    ensures Owner(entries, lines) == None
  {
    if lines != [] { NoHeaderNoOwner(entries, lines[..|lines| - 1]); }
  }

  /** No line from `from` on names the family of `e`. */
  ghost predicate Unnamed(entries: seq<Interface>, lines: seq<string>, from: nat, e: nat) {
    forall i :: from <= i < |lines| ==> !Names(entries, lines, i, e)
  }

  lemma UnnamedInPrefix(entries: seq<Interface>, lines: seq<string>, from: nat, e: nat)
    requires lines != [] && Unnamed(entries, lines, from, e)
    ensures Unnamed(entries, lines[..|lines| - 1], from, e)
  {
    var init := lines[..|lines| - 1];
    forall i | from <= i < |init| ensures !Names(entries, init, i, e) {
      assert init[..i] == lines[..i];
      assert !Names(entries, lines, i, e);
    }
  }

  /** Every family is that of the last line naming its interface. */
  lemma {:induction false} LastNamingLineWins(entries: seq<Interface>, lines: seq<string>, i: nat, e: nat)
    requires e < |entries| && i < |lines|
    requires Names(entries, lines, i, e) && Unnamed(entries, lines, i + 1, e)
    ensures FamilyAfter(entries, lines, e) == FamilyOf(lines[i])
  {
    hide IsFamily, IsEthernet, Owner, FamilyOf;
    var n := |lines| - 1;
    if i < n {
      var init := lines[..n];
      assert init[..i] == lines[..i] && init[i] == lines[i];
      UnnamedInPrefix(entries, lines, i + 1, e);
      LastNamingLineWins(entries, init, i, e);
      assert !Names(entries, lines, n, e);
    }
  }

  /** A family that no line names stays. */
  lemma {:induction false} UnnamedFamilyStays(entries: seq<Interface>, lines: seq<string>, e: nat)
    requires e < |entries| && Unnamed(entries, lines, 0, e)
    ensures FamilyAfter(entries, lines, e) == entries[e].cardFamily
  {
    if lines != [] {
      UnnamedInPrefix(entries, lines, 0, e);
      UnnamedFamilyStays(entries, lines[..|lines| - 1], e);
      assert !Names(entries, lines, |lines| - 1, e);
    }
  }

  // ----- composition -----

  lemma {:induction false} OwnerConcat(entries: seq<Interface>, changed: seq<Interface>, a: seq<string>, b: seq<string>)
    requires SameButFamily(changed, entries) && b != [] && IsHeader(b[0])
    ensures Owner(entries, a + b) == Owner(changed, b)
  {
    hide IsHeader, Target;
    var n := |b| - 1;
    assert (a + b)[..|a| + n] == a + b[..n];
    if IsHeader(b[n]) {
      TargetsAgree(changed, entries, b[n]);
    } else {
      OwnerConcat(entries, changed, a, b[..n]);
    }
  }

  lemma {:induction false} FamilyConcat(entries: seq<Interface>, a: seq<string>, b: seq<string>, e: nat)
    requires e < |entries| && (b != [] ==> IsHeader(b[0]))
    ensures FamilyAfter(entries, a + b, e) == FamilyAfter(Overridden(entries, a), b, e)
  {
    hide IsFamily, IsEthernet, Owner, FamilyOf, IsHeader;
    var changed := Overridden(entries, a);
    if b == [] {
      assert a + b == a;
    } else {
      var n := |b| - 1;
      assert (a + b)[..|a| + n] == a + b[..n] && (a + b)[|a| + n] == b[n];
      FamilyConcat(entries, a, b[..n], e);
      if n > 0 {
        OwnerConcat(entries, changed, a, b[..n]);
        assert (a + b)[|a| + n - 1] == b[n - 1];
      } else {
        HeaderNamesNothing(b[0]);
      }
      assert Names(entries, a + b, |a| + n, e) <==> Names(changed, b, n, e);
    }
  }

  lemma HeaderNamesNothing(line: string)
    requires IsHeader(line)
    ensures !IsFamily(line) && !IsEthernet(line)
  {
  }

  /** Overriding with `a` and then `b` is overriding with both when `b` opens a section of its own. */
  lemma OverrideComposes(entries: seq<Interface>, a: seq<string>, b: seq<string>)
    requires b != [] ==> IsHeader(b[0])
    ensures Overridden(entries, a + b) == Overridden(Overridden(entries, a), b)
  {
    forall e | 0 <= e < |entries|
      ensures FamilyAfter(entries, a + b, e) == FamilyAfter(Overridden(entries, a), b, e)
    {
      FamilyConcat(entries, a, b, e);
    }
  }

  /** The same on texts: the first non-blank line of `b`, if any, is not indented. */
  lemma OverrideComposesOnText(entries: seq<Interface>, a: string, b: string)
    requires Content(b) != [] ==> IsHeader(Content(b)[0])
    ensures Overridden(entries, Content(a + "\n" + b)) == Overridden(Overridden(entries, Content(a)), Content(b))
  {
    ContentConcat(a, b);
    OverrideComposes(entries, Content(a), Content(b));
  }

  // ----- idempotence -----

  lemma {:induction false} NamedOrNot(entries: seq<Interface>, changed: seq<Interface>, lines: seq<string>, e: nat)
    requires SameButFamily(changed, entries) && e < |entries|
    ensures FamilyAfter(changed, lines, e) == FamilyAfter(entries, lines, e)
         || (FamilyAfter(changed, lines, e) == changed[e].cardFamily
             && FamilyAfter(entries, lines, e) == entries[e].cardFamily)
  {
    if lines != [] {
      var n := |lines| - 1;
      NamedOrNot(entries, changed, lines[..n], e);
      OwnersAgree(entries, changed, lines[..n]);
    }
  }

  lemma {:induction false} OwnersAgree(entries: seq<Interface>, changed: seq<Interface>, lines: seq<string>)
    requires SameButFamily(changed, entries)
    ensures Owner(changed, lines) == Owner(entries, lines)
  {
    if lines != [] {
      TargetsAgree(changed, entries, lines[|lines| - 1]);
      OwnersAgree(entries, changed, lines[..|lines| - 1]);
    }
  }

  /** Applying the same output twice is applying it once. */
  lemma OverrideIdempotent(entries: seq<Interface>, lines: seq<string>)
    ensures Overridden(Overridden(entries, lines), lines) == Overridden(entries, lines)
  {
    var once := Overridden(entries, lines);
    forall e | 0 <= e < |entries| ensures FamilyAfter(once, lines, e) == FamilyAfter(entries, lines, e) {
      NamedOrNot(entries, once, lines, e);
    }
  }

  // ----- printing and reading back -----

  /** An Ethernet line and the line below it, with any indentation and any blanks behind. */
  datatype Card = Card(
    indent: string, address: string, trail: string,
    textIndent: string, text: string, textTrail: string
  )

  /** One section as VPP prints it: a header, body lines, perhaps an Ethernet line, more body lines. */
  datatype Section = Section(
    name: string, gap: string, index: nat, gap2: string, link: string, tail: string,
    before: seq<string>, card: Option<Card>, after: seq<string>
  )

  function HeaderStart(s: Section): string { s.name + s.gap + Decimal(s.index) + s.gap2 + s.link }

  function HeaderLine(s: Section): string { HeaderStart(s) + s.tail }

  function EthernetLine(c: Card): string { c.indent + ("Ethernet address " + c.address) + c.trail }

  function CardLine(c: Card): string { c.textIndent + c.text + c.textTrail }

  function CardLines(card: Option<Card>): seq<string> {
    if card.Some? then [EthernetLine(card.value), CardLine(card.value)] else []
  }

  function SectionLines(s: Section): seq<string> { [HeaderLine(s)] + s.before + CardLines(s.card) + s.after }

  function AllLines(sections: seq<Section>): seq<string> {
    if sections == [] then []
    else AllLines(sections[..|sections| - 1]) + SectionLines(sections[|sections| - 1])
  }

  /**
    The family that a section prints: the line below its Ethernet line, cut after 64 characters,
    unless that line has a colon or tells about the carrier.
  */
  function NewFamily(s: Section): Option<string> {
    if s.card.None? then None
    else
      var text := s.card.value.text;
      if ':' in text || "carrier " <= text then None
      else Some(if |text| > 64 then text[..64] else text)
  }

  ghost predicate NoSpaces(s: string) {
    forall i :: 0 <= i < |s| ==> s[i] != ' ' && !('\t' <= s[i] <= '\r')
  }

  /** White space within a line, at least one character of it. */
  ghost predicate IsGap(s: string) {
    s != "" && forall i :: 0 <= i < |s| ==> s[i] != '\n' && (s[i] == ' ' || '\t' <= s[i] <= '\r')
  }

  ghost predicate AllIndent(s: string) { forall i :: 0 <= i < |s| ==> s[i] == ' ' || s[i] == '\t' }

  ghost predicate AllTrailing(s: string) {
    forall i :: 0 <= i < |s| ==> s[i] == ' ' || s[i] == '\t' || s[i] == '\r'
  }

  /** A line that is blank or indented and has no Ethernet address behind its indentation. */
  ghost predicate Filler(line: string) {
    && '\n' !in line
    && (AllTrailing(line) || line[0] == ' ' || line[0] == '\t')
    && forall i :: 0 <= i <= |line| && AllIndent(line[..i]) ==> !("Ethernet address " <= line[i..])
  }

  /** A text between indentation and trailing blanks. */
  ghost predicate IsText(s: string) {
    && s != "" && '\n' !in s && s[0] != ' ' && s[0] != '\t'
    && s[|s| - 1] != ' ' && s[|s| - 1] != '\t' && s[|s| - 1] != '\r'
  }

  ghost predicate IsCard(c: Card) {
    && c.indent != "" && AllIndent(c.indent) && c.textIndent != "" && AllIndent(c.textIndent)
    && AllTrailing(c.trail) && AllTrailing(c.textTrail)
    && c.address != "" && IsText("Ethernet address " + c.address)
    && IsText(c.text) && !("Ethernet address " <= c.text)
  }

  ghost predicate WellFormed(s: Section) {
    && 0 < |s.name| <= 64 && NoSpaces(s.name) && IsGap(s.gap) && IsGap(s.gap2)
    && s.link != "" && NoSpaces(s.link) && '\n' !in s.tail
    && (s.card.Some? ==> IsCard(s.card.value))
    && (forall i :: 0 <= i < |s.before| ==> Filler(s.before[i]))
    && forall i :: 0 <= i < |s.after| ==> Filler(s.after[i])
  }

  // --- scanning the printed header ---

  lemma {:induction false} SkipBlanks(gap: string, s: string)
    requires forall i :: 0 <= i < |gap| ==> IsSpace(gap[i])
    requires s != "" && !IsSpace(s[0])
    ensures SkipSpace(gap + s) == s
  {
    if gap == "" {
      assert gap + s == s;
    } else {
      assert (gap + s)[1..] == gap[1..] + s;
      SkipBlanks(gap[1..], s);
    }
  }

  lemma WordThenBlank(word: string, rest: string, max: nat)
    requires word != "" && NoSpaces(word) && |word| <= max && rest != "" && IsSpace(rest[0])
    ensures ScanWord(word + rest, max) == Some((word, rest))
  {
    var s := word + rest;
    assert s[|word|] == rest[0] && forall i :: 0 <= i < |word| ==> s[i] == word[i];
    var n := WordLength(s, max);
    assert n == |word| && s[..n] == word && s[n..] == rest;
  }

  lemma DigitsThenBlank(gap: string, digits: string, rest: string)
    requires IsGap(gap) && digits != "" && forall i :: 0 <= i < |digits| ==> IsDigit(digits[i])
    requires rest != "" && IsSpace(rest[0])
    ensures ScanUnsigned(gap + (digits + rest)) == Some(rest)
  {
    var s := digits + rest;
    assert s[|digits|] == rest[0] && forall i :: 0 <= i < |digits| ==> s[i] == digits[i];
    SkipBlanks(gap, s);
    var n := DigitsLength(s);
    assert n == |digits| && s[n..] == rest;
  }

  lemma BlanksThenWord(gap: string, s: string)
    requires IsGap(gap) && s != "" && !IsSpace(s[0])
    ensures ScanWord(gap + s, 15).Some?
  {
    SkipBlanks(gap, s);
  }

  /** The header of a section scans to its name, whatever the trimming takes from its tail. */
  lemma HeaderScans(s: Section, tail: string)
    requires WellFormed(s)
    ensures ScanHeader(HeaderStart(s) + tail) == Some(s.name)
  {
    hide SkipSpace, WordLength, DigitsLength, Decimal, ScanWord, ScanUnsigned;
    var third := s.gap2 + (s.link + tail);
    var second := s.gap + (Decimal(s.index) + third);
    assert HeaderStart(s) + tail == s.name + second;
    assert second[0] == s.gap[0] && third[0] == s.gap2[0] && (s.link + tail)[0] == s.link[0];
    WordThenBlank(s.name, second, 64);
    DigitsThenBlank(s.gap, Decimal(s.index), third);
    BlanksThenWord(s.gap2, s.link + tail);
  }

  lemma {:induction false} SkipsSpace(s: string)
    ensures |SkipSpace(s)| <= |s| && SkipSpace(s) == s[|s| - |SkipSpace(s)|..]
  {
    if s != "" && IsSpace(s[0]) { SkipsSpace(s[1..]); }
  }

  lemma UnsignedHasDigit(s: string)
    requires ScanUnsigned(s).Some?
    ensures exists i :: 0 <= i < |s| && IsDigit(s[i])
  {
    hide SkipSpace;
    SkipsSpace(s);
    var t := SkipSpace(s);
    var sign := if t != "" && (t[0] == '+' || t[0] == '-') then 1 else 0;
    assert IsDigit(t[sign]) && t[sign] == s[|s| - |t| + sign];
  }

  lemma WordInFront(line: string, max: nat)
    requires ScanWord(line, max).Some? && !IsSpace(line[0])
    ensures var (word, rest) := ScanWord(line, max).value;
      0 < |word| <= max && NoSpaces(word) && line == word + rest
  {
    assert SkipSpace(line) == line;
  }

  /** Only a line with a word of at most 64 characters in front and a digit behind it names an interface. */
  lemma HeaderFields(line: string)
    requires line != "" && line[0] != ' ' && !('\t' <= line[0] <= '\r') && ScanHeader(line).Some?
    ensures var name := ScanHeader(line).value;
      && 0 < |name| <= 64 && NoSpaces(name) && name <= line
      && exists i :: |name| <= i < |line| && '0' <= line[i] <= '9'
  {
    hide ScanWord, ScanUnsigned, NoSpaces;
    WordInFront(line, 64);
    var (name, rest) := ScanWord(line, 64).value;
    UnsignedHasDigit(rest);
    var i :| 0 <= i < |rest| && IsDigit(rest[i]);
    assert line[|name| + i] == rest[i];
  }

  lemma RTrimmedKeeps(head: string, tail: string)
    requires head != "" && !IsTrailing(head[|head| - 1])
    ensures head <= RTrimmed(head + tail)
  {
    var s := head + tail;
    var r := RTrimmed(s);
    assert s[|head| - 1] == head[|head| - 1] && !IsTrailing(s[|head| - 1]);
    assert |r| >= |head|;
    assert r[..|head|] == s[..|head|] == head;
  }

  lemma StartsUnindented(line: string)
    requires RTrimmed(line) != "" && !IsIndent(RTrimmed(line)[0])
    ensures IsHeader(line)
  {
    assert IndentOf(RTrimmed(line)) == 0;
  }

  lemma HeaderIsHeader(s: Section)
    requires WellFormed(s)
    ensures IsHeader(HeaderLine(s)) && ScanHeader(RTrimmed(HeaderLine(s))) == Some(s.name)
    ensures '\n' !in HeaderLine(s)
  {
    hide RTrimmed, ScanHeader, IsHeader, Decimal;
    var head := HeaderStart(s);
    var line := HeaderLine(s);
    assert line == head + s.tail && head[|head| - 1] == s.link[|s.link| - 1];
    RTrimmedKeeps(head, s.tail);
    var tail := RTrimmed(line)[|head|..];
    assert RTrimmed(line) == head + tail;
    HeaderScans(s, tail);
    assert RTrimmed(line)[0] == s.name[0] && !IsSpace(s.name[0]);
    StartsUnindented(line);
  }

  // --- the two lines that matter ---

  /** Trimming takes exactly the blanks behind a text. */
  lemma RTrimmedIs(head: string, trail: string)
    requires head != "" && !IsTrailing(head[|head| - 1]) && AllTrailing(trail)
    ensures RTrimmed(head + trail) == head
  {
    hide RTrimmed;
    var s := head + trail;
    var r := RTrimmed(s);
    assert s[|head| - 1] == head[|head| - 1];
    assert forall i :: 0 <= i < |trail| ==> s[|head| + i] == trail[i];
    assert r == s[..|r|] == head;
  }

  lemma IndentOfText(indent: string, s: string)
    requires AllIndent(indent) && IsText(s)
    ensures IndentOf(indent + s) == |indent|
  {
    hide IndentOf;
    var t := indent + s;
    var n := IndentOf(t);
    assert t[|indent|] == s[0];
    assert forall k :: 0 <= k < |indent| ==> t[k] == indent[k];
  }

  lemma BodyOfText(indent: string, s: string, trail: string)
    requires indent != "" && AllIndent(indent) && IsText(s) && AllTrailing(trail)
    ensures Body(indent + s + trail) == s && !IsHeader(indent + s + trail)
    ensures '\n' !in indent + s + trail
  {
    hide RTrimmed, IndentOf;
    var head := indent + s;
    assert head[|head| - 1] == s[|s| - 1] && head[0] == indent[0];
    RTrimmedIs(head, trail);
    IndentOfText(indent, s);
    assert head[|indent|..] == s;
  }

  lemma EthernetIsEthernet(c: Card)
    requires IsCard(c)
    ensures IsEthernet(EthernetLine(c)) && !IsHeader(EthernetLine(c)) && '\n' !in EthernetLine(c)
  {
    hide Body, IsHeader;
    BodyOfText(c.indent, "Ethernet address " + c.address, c.trail);
  }

  lemma CardLineIs(s: Section)
    requires s.card.Some? && IsCard(s.card.value)
    ensures var line := CardLine(s.card.value);
      && !IsBlank(line) && !IsHeader(line) && !IsEthernet(line) && '\n' !in line
      && (if IsFamily(line) then NewFamily(s) == Some(FamilyOf(line)) else NewFamily(s) == None)
  {
    hide Body, IsHeader;
    var c := s.card.value;
    BodyOfText(c.textIndent, c.text, c.textTrail);
  }

  lemma FillerIs(line: string)
    requires Filler(line)
    ensures !IsHeader(line) && !IsEthernet(line)
  {
    hide RTrimmed, IndentOf;
    var r := RTrimmed(line);
    var n := IndentOf(r);
    assert AllIndent(line[..n]);
    assert r[n..] <= line[n..];
  }

  // --- one section ---

  /** Lines that are no headers and follow no Ethernet line leave everything as it is. */
  lemma {:induction false} FillersChangeNothing(entries: seq<Interface>, lines: seq<string>, fillers: seq<string>)
    requires lines != [] && !IsEthernet(lines[|lines| - 1])
    requires forall i :: 0 <= i < |fillers| ==> Filler(fillers[i])
    ensures Overridden(entries, lines + fillers) == Overridden(entries, lines)
    ensures Owner(entries, lines + fillers) == Owner(entries, lines)
    ensures !IsEthernet((lines + fillers)[|lines + fillers| - 1])
  {
    hide Overridden, Owner, IsHeader, IsEthernet, IsFamily, FamilyOf, Filler;
    if fillers == [] {
      assert lines + fillers == lines;
    } else {
      var n := |fillers| - 1;
      FillersChangeNothing(entries, lines, fillers[..n]);
      var most := lines + fillers[..n];
      assert lines + fillers == most + [fillers[n]];
      FillerIs(fillers[n]);
      OverriddenNext(entries, most, fillers[n]);
      OwnerNext(entries, most, fillers[n]);
    }
  }

  lemma NonBlankLines(lines: seq<string>)
    requires |lines| <= 2 && forall i :: 0 <= i < |lines| ==> !IsBlank(lines[i])
    ensures NonBlank(lines) == lines
  {
    hide IsBlank;
    if lines != [] {
      assert lines == [lines[0]] + lines[1..];
      if |lines| == 2 { assert lines[1..][1..] == [] && lines[1..] == [lines[1]]; }
    }
  }

  /** The non-blank lines of a section. */
  lemma SectionContent(s: Section)
    requires WellFormed(s)
    ensures NonBlank(SectionLines(s))
         == [HeaderLine(s)] + NonBlank(s.before) + CardLines(s.card) + NonBlank(s.after)
  {
    hide IsEthernet, IsFamily, IsBlank, HeaderLine, EthernetLine, CardLine, FamilyOf, NonBlank;
    HeaderIsHeader(s);
    NotBlank(HeaderLine(s));
    var top, mid := [HeaderLine(s)], CardLines(s.card);
    if s.card.Some? {
      EthernetIsEthernet(s.card.value);
      NotBlank(EthernetLine(s.card.value));
      CardLineIs(s);
    }
    NonBlankLines(top);
    NonBlankLines(mid);
    NonBlankConcat(top, s.before);
    NonBlankConcat(top + s.before, mid);
    NonBlankConcat(top + s.before + mid, s.after);
  }

  lemma NotBlank(line: string)
    requires IsHeader(line) || IsEthernet(line)
    ensures !IsBlank(line)
  {
  }

  lemma {:induction false} FillersStay(lines: seq<string>)
    requires forall i :: 0 <= i < |lines| ==> Filler(lines[i])
    ensures forall i :: 0 <= i < |NonBlank(lines)| ==> Filler(NonBlank(lines)[i])
  {
    if lines != [] { FillersStay(lines[1..]); }
  }

  /** `entries` with a new family for one of them, if there is one for any. */
  function WithFamily(entries: seq<Interface>, e: Option<nat>, family: Option<string>): (r: seq<Interface>)
    requires e.Some? ==> e.value < |entries|
    ensures SameButFamily(r, entries)
  {
    if e.Some? && family.Some? then entries[e.value := entries[e.value].(cardFamily := family.value)] else entries
  }

  /** Up to its Ethernet line a section changes nothing. */
  lemma SectionTop(entries: seq<Interface>, s: Section)
    requires WellFormed(s)
    ensures var top := [HeaderLine(s)] + NonBlank(s.before);
      Overridden(entries, top) == entries && Owner(entries, top) == Addressed(entries, s.name)
  {
    hide Overridden, Owner, NonBlank, HeaderLine, IsFamily, IsEthernet, IsHeader;
    HeaderIsHeader(s);
    FillersStay(s.before);
    NothingRead(entries);
    assert [] + [HeaderLine(s)] == [HeaderLine(s)];
    OverriddenNext(entries, [], HeaderLine(s));
    OwnerNext(entries, [], HeaderLine(s));
    HeaderNamesNothing(HeaderLine(s));
    FillersChangeNothing(entries, [HeaderLine(s)], NonBlank(s.before));
  }

  /** Reading one section sets the family of the interface it is about, if it prints one, and nothing else. */
  lemma OneSection(entries: seq<Interface>, s: Section)
    requires WellFormed(s)
    ensures Overridden(entries, NonBlank(SectionLines(s)))
         == WithFamily(entries, Addressed(entries, s.name), NewFamily(s))
  {
    hide Overridden, Owner, NonBlank, SectionLines, HeaderLine, EthernetLine, CardLine, FamilyOf;
    hide IsFamily, IsEthernet, IsHeader, Addressed, NoSpaces, Filler, IsCard, NewFamily, IsBlank;
    SectionContent(s);
    FillersStay(s.after);
    SectionTop(entries, s);
    var top, after := [HeaderLine(s)] + NonBlank(s.before), NonBlank(s.after);
    if s.card.None? {
      NoCardNoFamily(s);
      TopIsNoEthernet(s);
      FillersChangeNothing(entries, top, after);
      assert top + CardLines(s.card) + after == top + after;
    } else {
      var first, second := EthernetLine(s.card.value), CardLine(s.card.value);
      EthernetIsEthernet(s.card.value);
      CardLineIs(s);
      EthernetNamesNothing(first);
      OverriddenNext(entries, top, first);
      OwnerNext(entries, top, first);
      OverriddenNext(entries, top + [first], second);
      FillersChangeNothing(entries, top + [first] + [second], after);
      assert top + CardLines(s.card) == top + [first] + [second];
    }
  }

  lemma NoCardNoFamily(s: Section)
    requires s.card.None?
    ensures NewFamily(s) == None
  {
  }

  lemma TopIsNoEthernet(s: Section)
    requires WellFormed(s)
    ensures var top := [HeaderLine(s)] + NonBlank(s.before);
      !IsEthernet(top[|top| - 1])
  {
    hide IsHeader, IsEthernet, HeaderLine, IsBlank, NonBlank, Filler;
    HeaderIsHeader(s);
    HeaderNamesNothing(HeaderLine(s));
    FillersStay(s.before);
    var fillers := NonBlank(s.before);
    if fillers != [] { FillerIs(fillers[|fillers| - 1]); }
  }

  lemma EthernetNamesNothing(line: string)
    requires IsEthernet(line)
    ensures !IsFamily(line)
  {
  }

  // --- the whole output ---

  ghost predicate OneLineEach(lines: seq<string>) { forall i :: 0 <= i < |lines| ==> '\n' !in lines[i] }

  lemma {:induction false} ContentOfPrint(lines: seq<string>)
    requires OneLineEach(lines)
    ensures Content(Unlines(lines)) == NonBlank(lines)
  {
    hide Content, IsBlank;
    if lines == [] {
      ContentOfEmpty();
    } else {
      ContentOfPrint(lines[1..]);
      ContentOfLine(lines[0]);
      ContentConcat(lines[0], Unlines(lines[1..]));
    }
  }

  lemma SectionOnLines(s: Section)
    requires WellFormed(s)
    ensures OneLineEach(SectionLines(s))
  {
    hide HeaderLine, EthernetLine, CardLine, IsHeader, IsEthernet, IsFamily, FamilyOf, IsBlank;
    HeaderIsHeader(s);
    if s.card.Some? {
      EthernetIsEthernet(s.card.value);
      CardLineIs(s);
    }
  }

  lemma {:induction false} SectionsOnLines(sections: seq<Section>)
    requires forall i :: 0 <= i < |sections| ==> WellFormed(sections[i])
    ensures OneLineEach(AllLines(sections))
  {
    hide WellFormed, SectionLines;
    if sections != [] {
      SectionsOnLines(sections[..|sections| - 1]);
      SectionOnLines(sections[|sections| - 1]);
    }
  }

  /** The table after all sections: each sets the family of the interface it is about, if it prints one. */
  function WithSections(entries: seq<Interface>, sections: seq<Section>): (r: seq<Interface>)
    ensures SameButFamily(r, entries)
  {
    if sections == [] then entries
    else
      var s := sections[|sections| - 1];
      WithFamily(WithSections(entries, sections[..|sections| - 1]), Addressed(entries, s.name), NewFamily(s))
  }

  /**
    The section is about interface `e`: the first one with its name, which is hardware and neither
    the local one nor a memif.
  */
  ghost predicate IsAbout(entries: seq<Interface>, s: Section, e: nat) {
    && e < |entries| && entries[e].name == s.name && (forall k :: 0 <= k < e ==> entries[k].name != s.name)
    && entries[e].ifType == Hardware && s.name != "local0" && !("memif" <= s.name)
  }

  lemma AddressedIs(entries: seq<Interface>, s: Section, e: nat)
    ensures IsAbout(entries, s, e) <==> Addressed(entries, s.name) == Some(e)
  {
  }

  /** Section `i` sets the family of interface `e`. */
  ghost predicate Sets(entries: seq<Interface>, s: Section, e: nat) { IsAbout(entries, s, e) && NewFamily(s).Some? }

  /** An interface whose family no section from `from` on sets. */
  ghost predicate NoneSets(entries: seq<Interface>, sections: seq<Section>, from: nat, e: nat) {
    forall i :: from <= i < |sections| ==> !Sets(entries, sections[i], e)
  }

  lemma {:induction false} NoneSetsStays(entries: seq<Interface>, sections: seq<Section>, from: nat, e: nat)
    requires e < |entries| && from <= |sections| && NoneSets(entries, sections, from, e)
    ensures WithSections(entries, sections)[e] == WithSections(entries, sections[..from])[e]
    decreases |sections|
  {
    hide Addressed, IsAbout, NewFamily;
    if from == |sections| {
      assert sections[..from] == sections;
    } else {
      var n := |sections| - 1;
      AddressedIs(entries, sections[n], e);
      assert !Sets(entries, sections[n], e);
      assert sections[..n][..from] == sections[..from];
      NoneSetsStays(entries, sections[..n], from, e);
    }
  }

  /** The last section that sets a family decides. */
  lemma LastSets(entries: seq<Interface>, sections: seq<Section>, i: nat, e: nat)
    requires i < |sections| && Sets(entries, sections[i], e) && NoneSets(entries, sections, i + 1, e)
    ensures e < |entries| && WithSections(entries, sections)[e].cardFamily == NewFamily(sections[i]).value
  {
    hide Addressed, NewFamily;
    AddressedIs(entries, sections[i], e);
    NoneSetsStays(entries, sections, i + 1, e);
    assert sections[..i + 1][..i] == sections[..i];
  }

  lemma {:induction false} SectionsOpen(sections: seq<Section>)
    requires forall i :: 0 <= i < |sections| ==> WellFormed(sections[i])
    ensures NonBlank(AllLines(sections)) != [] ==> IsHeader(NonBlank(AllLines(sections))[0])
  {
    if sections != [] {
      var init, s := sections[..|sections| - 1], sections[|sections| - 1];
      SectionsOpen(init);
      NonBlankConcat(AllLines(init), SectionLines(s));
      SectionContent(s);
      HeaderIsHeader(s);
    }
  }

  lemma {:induction false} SectionsRead(entries: seq<Interface>, sections: seq<Section>)
    requires forall i :: 0 <= i < |sections| ==> WellFormed(sections[i])
    ensures Overridden(entries, NonBlank(AllLines(sections))) == WithSections(entries, sections)
  {
    hide NonBlank, Overridden, SectionLines, WellFormed, HeaderLine, EthernetLine, CardLine, IsHeader;
    hide Addressed, WithFamily, NewFamily;
    if sections == [] {
      NonBlankNothing();
      NothingRead(entries);
    } else {
      var init, s := sections[..|sections| - 1], sections[|sections| - 1];
      SectionsRead(entries, init);
      var before, lines := NonBlank(AllLines(init)), NonBlank(SectionLines(s));
      NonBlankConcat(AllLines(init), SectionLines(s));
      SectionContent(s);
      HeaderIsHeader(s);
      OverrideComposes(entries, before, lines);
      var result := WithSections(entries, init);
      AddressedAgrees(result, entries, s.name);
      OneSection(result, s);
    }
  }

  lemma NonBlankNothing()
    ensures NonBlank([]) == []
  {
  }

  /**
    Printing any sections in VPP's shape below a title line and running the override: an interface
    ends with the family of the last section that sets one for it, and is otherwise as it was.
  */
  lemma PrintThenOverride(entries: seq<Interface>, title: string, sections: seq<Section>)
    requires Filler(title) && forall i :: 0 <= i < |sections| ==> WellFormed(sections[i])
    ensures var result := Overridden(entries, Content(title + "\n" + Unlines(AllLines(sections))));
      && |result| == |entries|
      && (forall e: nat :: e < |entries| ==> result[e] == entries[e].(cardFamily := result[e].cardFamily))
      && (forall e: nat :: e < |entries| && NoneSets(entries, sections, 0, e) ==> result[e] == entries[e])
      && (forall i: nat, e: nat ::
            i < |sections| && Sets(entries, sections[i], e) && NoneSets(entries, sections, i + 1, e) ==>
            result[e].cardFamily == NewFamily(sections[i]).value)
  {
    hide Content, Overridden, NonBlank, AllLines, WellFormed, Unlines, WithSections, IsAbout, NoneSets;
    hide OneLineEach, IsHeader, IsEthernet, IsFamily, IsBlank, FamilyOf, Owner, NewFamily, Filler;
    PrintedIsRead(entries, title, sections);
    forall e: nat | e < |entries| && NoneSets(entries, sections, 0, e)
      ensures WithSections(entries, sections)[e] == entries[e]
    {
      NoneSetsStays(entries, sections, 0, e);
      NoSections(entries, sections[..0]);
    }
    forall i: nat, e: nat | i < |sections| && Sets(entries, sections[i], e) && NoneSets(entries, sections, i + 1, e)
      ensures e < |entries| && WithSections(entries, sections)[e].cardFamily == NewFamily(sections[i]).value
    {
      LastSets(entries, sections, i, e);
    }
  }

  lemma NoSections(entries: seq<Interface>, sections: seq<Section>)
    requires |sections| == 0
    ensures WithSections(entries, sections) == entries
  {
  }

  lemma PrintedIsRead(entries: seq<Interface>, title: string, sections: seq<Section>)
    requires Filler(title) && forall i :: 0 <= i < |sections| ==> WellFormed(sections[i])
    ensures Overridden(entries, Content(title + "\n" + Unlines(AllLines(sections)))) == WithSections(entries, sections)
  {
    hide Content, Overridden, NonBlank, AllLines, WellFormed, Unlines, WithSections;
    hide OneLineEach, IsHeader, IsEthernet, IsFamily, IsBlank, FamilyOf, Owner;
    SectionsOnLines(sections);
    ContentOfPrint(AllLines(sections));
    SectionsOpen(sections);
    OverrideComposesOnText(entries, title, Unlines(AllLines(sections)));
    ContentOfLine(title);
    FillerIs(title);
    NothingRead(entries);
    assert [] + [title] == [title];
    OverriddenNext(entries, [], title);
    assert Overridden(entries, Content(title)) == entries;
    SectionsRead(entries, sections);
  }
}
