/**
  `boy_override_card_family_from_cli_output` of boy/commands/phy_cmd.c: one pass
  over a copy of the text that is cut in place, against a specification that has
  no automaton in it.
*/
module PhyOverride {
  import opened HardwareText
  import opened Interfaces
  import opened Sums

  // ----- specification -----

  /** The interface that a section with this name is about: the first of that name, if it is physical. */
  function Addressed(entries: seq<Interface>, name: string): (r: Option<nat>)
    ensures r.Some? ==> r.value < |entries|
  {
    var position := PositionOfName(entries, name);
    if position.Some? && IsPhysical(entries[position.value]) then position else None
  }

  /** The physical interface that a header line names. */
  function Target(entries: seq<Interface>, line: string): (r: Option<nat>)
    ensures r.Some? ==> r.value < |entries|
  {
    var name := ScanHeader(RTrimmed(line));
    if name.Some? then Addressed(entries, name.value) else None
  }

  /** The interface whose section is open after `lines`: the target of the last header. */
  function Owner(entries: seq<Interface>, lines: seq<string>): (r: Option<nat>)
    ensures r.Some? ==> r.value < |entries|
  {
    if lines == [] then None
    else
      var last := lines[|lines| - 1];
      if IsHeader(last) then Target(entries, last) else Owner(entries, lines[..|lines| - 1])
  }

  /** Line `i` names the family of interface `e`: it follows an Ethernet line in a section of `e`. */
  predicate Names(entries: seq<Interface>, lines: seq<string>, i: nat, e: nat)
    requires i < |lines|
  {
    i > 0 && IsFamily(lines[i]) && IsEthernet(lines[i - 1]) && Owner(entries, lines[..i]) == Some(e)
  }

  ghost predicate SameButFamily(a: seq<Interface>, b: seq<Interface>) {
    |a| == |b| && forall e :: 0 <= e < |a| ==> a[e] == b[e].(cardFamily := a[e].cardFamily)
  }

  /** The family of interface `e` after `lines`: the last line that names it, if any. */
  function FamilyAfter(entries: seq<Interface>, lines: seq<string>, e: nat): string
    requires e < |entries|
  {
    if lines == [] then entries[e].cardFamily
    else
      var n := |lines| - 1;
      if Names(entries, lines, n, e) then FamilyOf(lines[n]) else FamilyAfter(entries, lines[..n], e)
  }

  function Overridden(entries: seq<Interface>, lines: seq<string>): (r: seq<Interface>)
    ensures SameButFamily(r, entries)
  {
    seq(|entries|, e requires 0 <= e < |entries| => entries[e].(cardFamily := FamilyAfter(entries, lines, e)))
  }

  // ----- the text buffer -----

  /** A zero-terminated string from `start` to `end`. */
  ghost predicate CString(text: array<char>, start: nat, end: nat)
    reads text
  {
    start <= end < text.Length && text[end] == '\0' && forall i :: start <= i < end ==> text[i] != '\0'
  }

  lemma ContentSkip(s: string)
    requires s != "" && s[0] == '\n'
    ensures Content(s) == Content(s[1..])
  {
    hide *;
    ContentOfEmpty();
    ContentConcat("", s[1..]);
    assert "" + "\n" + s[1..] == s;
  }

  lemma ContentCut(s: string, k: nat)
    requires k < |s| && s[k] == '\n'
    ensures Content(s) == Content(s[..k]) + Content(s[k + 1..])
  {
    hide *;
    ContentConcat(s[..k], s[k + 1..]);
    assert s[..k] + "\n" + s[k + 1..] == s;
  }

  method SkipNewlines(text: array<char>, pos: nat, ghost last: nat) returns (start: nat)
    requires CString(text, pos, last)
    ensures pos <= start <= last && text[start] != '\n'
    ensures Content(text[start..last]) == Content(text[pos..last])
  {
    hide Content;
    start := pos;
    while text[start] == '\n'
      invariant pos <= start <= last && Content(text[start..last]) == Content(text[pos..last])
      decreases last - start
    {
      ContentSkip(text[start..last]);
      assert text[start..last][1..] == text[start + 1..last];
      start := start + 1;
    }
  }

  method TokenEnd(text: array<char>, start: nat, ghost last: nat) returns (end: nat)
    requires CString(text, start, last)
    ensures start <= end <= last && '\n' !in text[start..end]
    ensures text[end] == '\n' || end == last
    ensures end == last ==> text[end] == '\0'
  {
    end := start;
    while text[end] != '\n' && text[end] != '\0'
      invariant start <= end <= last && forall i :: start <= i < end ==> text[i] != '\n'
      decreases last - end
    {
      end := end + 1;
    }
  }

  /** `strtok_r(text, "\n", &pos)`: the next token, and where to go on. */
  method NextToken(text: array<char>, pos: nat, ghost last: nat)
    returns (found: bool, start: nat, end: nat, next: nat)
    requires CString(text, pos, last)
    modifies text
    ensures found ==> pos <= start < end <= next <= last && CString(text, start, end) && CString(text, next, last)
    ensures found ==> '\n' !in text[start..end]
    ensures found ==>
      Content(old(text[pos..last])) == Content(text[start..end]) + Content(text[next..last])
    ensures !found ==> Content(old(text[pos..last])) == []
  {
    hide Content;
    ContentOfEmpty();
    start := SkipNewlines(text, pos, last);
    end, next := start, start;
    if text[start] == '\0' {
      assert text[start..last] == "";
      return false, start, end, next;
    }
    end := TokenEnd(text, start, last);
    ghost var rest, k := text[start..last], end - start;
    assert text[start..end] == rest[..k];
    if text[end] == '\n' {
      ContentCut(rest, k);
      assert rest[k + 1..] == text[end + 1..last];
      text[end] := '\0';
      next := end + 1;
      assert text[start..end] == rest[..k] && text[next..last] == rest[k + 1..];
    } else {
      next := end;
      assert text[next..last] == "" && rest[..k] == rest;
    }
    found := true;
  }

  /** `strlen`. */
  method Length(text: array<char>, start: nat, ghost end: nat) returns (len: nat)
    requires CString(text, start, end)
    ensures start + len == end
  {
    len := 0;
    while text[start + len] != '\0'
      invariant start + len <= end
      decreases end - (start + len)
    {
      len := len + 1;
    }
  }

  lemma {:induction false} RTrimmedCut(s: string, len: nat)
    requires len <= |s| && forall i :: len <= i < |s| ==> IsTrailing(s[i])
    ensures RTrimmed(s) == RTrimmed(s[..len])
    decreases |s|
  {
    if len < |s| {
      assert s[..|s| - 1][..len] == s[..len];
      RTrimmedCut(s[..|s| - 1], len);
    } else {
      assert s[..len] == s;
    }
  }

  /** Lines 105-116: cuts the string in place. */
  method RTrim(text: array<char>, start: nat, ghost end: nat) returns (ghost newEnd: nat)
    requires CString(text, start, end)
    modifies text
    ensures start <= newEnd <= end && CString(text, start, newEnd)
    ensures text[start..newEnd] == RTrimmed(old(text[start..end]))
    ensures forall i :: end <= i < text.Length ==> text[i] == old(text[i])
  {
    ghost var line := text[start..end];
    var len: nat := Length(text, start, end);
    while len > 0
      invariant start + len <= end && text[start + len] == '\0'
      invariant forall i :: start <= i < start + len ==> text[i] == old(text[i])
      invariant forall i :: len <= i < |line| ==> IsTrailing(line[i])
      invariant forall i :: end <= i < text.Length ==> text[i] == old(text[i])
    {
      var ch := text[start + len - 1];
      assert ch == line[len - 1];
      if ch != ' ' && ch != '\t' && ch != '\r' {
        break;
      }
      len := len - 1;
      text[start + len] := '\0';
    }
    newEnd := start + len;
    RTrimmedCut(line, len);
    assert text[start..newEnd] == line[..len];
  }

  /** The string at `start`, as a value. */
  method Read(text: array<char>, start: nat, ghost end: nat) returns (s: string)
    requires CString(text, start, end)
    ensures s == text[start..end]
  {
    var len := Length(text, start, end);
    s := text[start..start + len];
  }

  /** Lines 141-146: skips the indentation. */
  method SkipIndent(line: string) returns (trimmed: string)
    ensures trimmed == line[IndentOf(line)..]
    ensures trimmed != "" ==> trimmed[0] != ' ' && trimmed[0] != '\t'
  {
    var k := 0;
    while k < |line| && (line[k] == ' ' || line[k] == '\t')
      invariant k <= |line| && forall i :: 0 <= i < k ==> IsIndent(line[i])
    {
      k := k + 1;
    }
    trimmed := line[k..];
  }

  /** Lines 136-143: the next line, trimmed on the right. */
  method NextLine(text: array<char>, pos: nat, ghost last: nat)
    returns (found: bool, line: string, next: nat, ghost token: string)
    requires CString(text, pos, last)
    modifies text
    ensures found ==> pos < next <= last && CString(text, next, last) && line == RTrimmed(token)
    ensures found ==>
      Content(old(text[pos..last])) == (if IsBlank(token) then [] else [token]) + Content(text[next..last])
    ensures !found ==> Content(old(text[pos..last])) == []
  {
    hide Content, RTrimmed, IsBlank;
    var start, end;
    found, start, end, next := NextToken(text, pos, last);
    line, token := "", "";
    if found {
      token := text[start..end];
      ContentOfLine(token);
      ghost var rest := text[next..last];
      ghost var lineEnd := RTrim(text, start, end);
      assert text[next..last] == rest;
      line := Read(text, start, lineEnd);
    }
  }

  // ----- one pass -----

  lemma SamePositions(a: seq<Interface>, b: seq<Interface>, name: string)
    requires SameButFamily(a, b)
    ensures PositionOfName(a, name) == PositionOfName(b, name)
  {
    hide PositionOfName;
    var p, q := PositionOfName(a, name), PositionOfName(b, name);
    assert forall e :: 0 <= e < |a| ==> a[e].name == b[e].name;
    if p.Some? { assert a[p.value].name == b[p.value].name; }
    if q.Some? { assert a[q.value].name == b[q.value].name; }
  }

  lemma OwnerNext(entries: seq<Interface>, lines: seq<string>, line: string)
    ensures Owner(entries, lines + [line]) == if IsHeader(line) then Target(entries, line) else Owner(entries, lines)
  {
    assert (lines + [line])[..|lines|] == lines;
  }

  /** One more line that does not name a family changes nothing; one that does sets one entry. */
  lemma OverriddenNext(entries: seq<Interface>, lines: seq<string>, line: string)
    ensures var before, after := Overridden(entries, lines), Overridden(entries, lines + [line]);
      var owner := Owner(entries, lines);
      after == if lines != [] && IsFamily(line) && IsEthernet(lines[|lines| - 1]) && owner.Some?
               then before[owner.value := before[owner.value].(cardFamily := FamilyOf(line))]
               else before
  {
    hide Owner, IsFamily, IsEthernet, FamilyOf;
    var longer := lines + [line];
    assert longer[..|lines|] == lines;
    forall e | 0 <= e < |entries|
      ensures FamilyAfter(entries, longer, e)
           == if Names(entries, longer, |lines|, e) then FamilyOf(line) else FamilyAfter(entries, lines, e)
    {
    }
  }

  /** Lines 152-159: the section that a header line opens. */
  method OpenSection(entries: array<Interface>, line: string) returns (current: Option<nat>)
    requires RTrimmed(line) == line
    ensures current == Target(entries[..], line)
  {
    var name := ScanHeader(line);
    if name.Some? {
      current := FindByName(entries[..], name.value);
      if current.Some? && !IsPhysical(entries[current.value]) {
        current := None;
      }
    } else {
      current := None;
    }
  }

  lemma RTrimmedTwice(s: string)
    ensures RTrimmed(RTrimmed(s)) == RTrimmed(s)
  {
  }

  lemma AddressedAgrees(a: seq<Interface>, b: seq<Interface>, name: string)
    requires SameButFamily(a, b)
    ensures Addressed(a, name) == Addressed(b, name)
  {
    SamePositions(a, b, name);
  }

  lemma TargetsAgree(a: seq<Interface>, b: seq<Interface>, line: string)
    requires SameButFamily(a, b)
    ensures Target(a, line) == Target(b, line)
  {
    var name := ScanHeader(RTrimmed(line));
    if name.Some? { AddressedAgrees(a, b, name.value); }
  }

  /** What `current` and `expect_family` say after the lines `done`. */
  ghost predicate Tracks(original: seq<Interface>, done: seq<string>, current: Option<nat>, expectFamily: bool) {
    && current == Owner(original, done)
    && (expectFamily <==> done != [] && IsEthernet(done[|done| - 1]) && current.Some?)
  }

  /** Lines 143-180: what one line that is not blank does to `current`, `expect_family` and the table. */
  method ProcessLine(entries: array<Interface>, line: string, trimmed: string, current0: Option<nat>,
                     expectFamily0: bool, ghost original: seq<Interface>, ghost done: seq<string>, ghost token: string)
    returns (current: Option<nat>, expectFamily: bool)
    requires line == RTrimmed(token) && trimmed == Body(token) != ""
    requires entries[..] == Overridden(original, done) && Tracks(original, done, current0, expectFamily0)
    modifies entries
    ensures entries[..] == Overridden(original, done + [token])
    ensures Tracks(original, done + [token], current, expectFamily)
  {
    hide Owner, Overridden, RTrimmed, Target, FamilyAfter;
    current, expectFamily := current0, expectFamily0;
    OwnerNext(original, done, token);
    OverriddenNext(original, done, token);
    if line[0] != ' ' && line[0] != '\t' {
      RTrimmedTwice(token);
      current := OpenSection(entries, line);
      TargetsAgree(entries[..], original, line);
      SameTarget(original, token);
      expectFamily := false;
      return;
    }
    if current.None? {
      return;
    }
    if ETHERNET <= trimmed {
      expectFamily := true;
      return;
    }
    if !expectFamily {
      return;
    }
    if ':' in trimmed || CARRIER <= trimmed {
      expectFamily := false;
      return;
    }
    var family := if |trimmed| > FAMILY_FIELD then trimmed[..FAMILY_FIELD] else trimmed;
    entries[current.value] := entries[current.value].(cardFamily := family);
    expectFamily := false;
  }

  lemma SameTarget(entries: seq<Interface>, token: string)
    ensures Target(entries, RTrimmed(token)) == Target(entries, token)
  {
    RTrimmedTwice(token);
  }

  /** Lines 118-184. Nothing happens when there is no memory for a copy of the text. */
  method OverrideCardFamily(entries: array<Interface>, cliOutput: string, gotMemory: bool)
    requires '\0' !in cliOutput
    modifies entries
    ensures entries[..] ==
      if gotMemory then Overridden(old(entries[..]), Content(cliOutput)) else old(entries[..])
  {
    hide Content, Overridden, Tracks, RTrimmed, Body, IsBlank, IndentOf, SameButFamily;
    ghost var original := entries[..];
    if !gotMemory {
      return;
    }
    var text := Duplicate(cliOutput);
    ghost var n := |cliOutput|;
    var current: Option<nat>, expectFamily, pos: nat := None, false, 0;
    ghost var done: seq<string> := [];
    NothingRead(original);
    while true
      invariant CString(text, pos, n)
      invariant Content(cliOutput) == done + Content(text[pos..n])
      invariant entries[..] == Overridden(original, done) && Tracks(original, done, current, expectFamily)
      decreases n - pos
    {
      var found, line, next; ghost var token;
      found, line, next, token := NextLine(text, pos, n);
      if !found {
        assert done + [] == done;
        break;
      }
      var trimmed := SkipIndent(line);
      ghost var before := done;
      BodyIs(line, token);
      if trimmed != "" {
        current, expectFamily := ProcessLine(entries, line, trimmed, current, expectFamily, original, done, token);
        done := done + [token];
      }
      assert done == before + if IsBlank(token) then [] else [token];
      pos := next;
    }
  }

  lemma BodyIs(line: string, token: string)
    requires line == RTrimmed(token)
    ensures line[IndentOf(line)..] == Body(token) && (IsBlank(token) <==> Body(token) == "")
  {
  }

  lemma NothingRead(original: seq<Interface>)
    ensures Overridden(original, []) == original && Tracks(original, [], None, false)
  {
    assert Overridden(original, []) == original;
  }

  /** `strdup`. */
  method Duplicate(s: string) returns (text: array<char>)
    requires '\0' !in s
    ensures fresh(text) && CString(text, 0, |s|) && text[0..|s|] == s
  {
    text := new char[|s| + 1](i requires 0 <= i <= |s| => if i < |s| then s[i] else '\0');
  }
}
