/** What set and unset commands do to the SPAN map, alone and in runs. */
module SpanTheorems {
  import opened Interfaces
  import opened SpanCommands
  import opened Vpp

  // ----- one command -----

  ghost predicate DistinctKeys(entries: seq<SpanEntry>) {
    forall i, j :: 0 <= i < j < |entries| ==> entries[i].Key() != entries[j].Key()
  }

  lemma DumpIsSound(dump: seq<SpanEntry>, span: SpanMap) returns (n: nat)
    requires IsDump(dump, span)
    ensures n <= |dump| && Enumerates(dump[..n], span, false) && Enumerates(dump[n..], span, true)
    ensures forall i :: 0 <= i < |dump| ==>
      dump[i].Key() in span && span[dump[i].Key()] == dump[i].state && (dump[i].l2 <==> i >= n)
  {
    n :| 0 <= n <= |dump| && Enumerates(dump[..n], span, false) && Enumerates(dump[n..], span, true);
    forall i | 0 <= i < |dump|
      ensures dump[i].Key() in span && span[dump[i].Key()] == dump[i].state && (dump[i].l2 <==> i >= n)
    {
      if i < n { assert dump[i] == dump[..n][i]; } else { assert dump[i] == dump[n..][i - n]; }
    }
  }

  lemma DumpIsDistinct(dump: seq<SpanEntry>, span: SpanMap)
    requires IsDump(dump, span)
    ensures DistinctKeys(dump)
  {
    var n := DumpIsSound(dump, span);
    forall i, j | 0 <= i < j < |dump| ensures dump[i].Key() != dump[j].Key() {
      if j < n {
        assert dump[..n][i].Key() != dump[..n][j].Key();
      } else if i >= n {
        assert dump[n..][i - n].Key() != dump[n..][j - n].Key();
      }
    }
  }

  lemma DumpIsComplete(dump: seq<SpanEntry>, span: SpanMap, k: SpanKey)
    requires IsDump(dump, span) && k in span
    ensures exists e :: e in dump && e.Key() == k
  {
    var n := DumpIsSound(dump, span);
    var part := if k.l2 then dump[n..] else dump[..n];
    var i :| 0 <= i < |part| && part[i].Key() == k;
    assert part[i] in dump;
  }

  lemma {:induction false} MatchingDistinct(entries: seq<SpanEntry>, source: nat)
    requires DistinctKeys(entries)
    ensures DistinctKeys(Matching(entries, source))
  {
    if entries != [] {
      var n := |entries| - 1;
      var before := Matching(entries[..n], source);
      MatchingDistinct(entries[..n], source);
      forall i | 0 <= i < |before| ensures before[i].Key() != entries[n].Key() {
        var k :| 0 <= k < n && entries[..n][k] == before[i];
        assert entries[k].Key() != entries[n].Key();
      }
    }
  }

  lemma {:induction false} KeysCount(entries: seq<SpanEntry>)
    requires DistinctKeys(entries)
    ensures |Keys(entries)| == |entries|
  {
    if entries != [] {
      var n := |entries| - 1;
      KeysCount(entries[..n]);
      assert entries[..n + 1] == entries;
      KeysNext(entries, n);
      assert entries[n].Key() !in Keys(entries[..n]);
    }
  }

  lemma KeysOfMatching(dump: seq<SpanEntry>, span: SpanMap, source: nat)
    requires IsDump(dump, span)
    ensures forall k :: k in Keys(Matching(dump, source)) <==> k in span && k.source == source
  {
    var _ := DumpIsSound(dump, span);
    var found := Matching(dump, source);
    forall k | k in span && k.source == source ensures k in Keys(found) {
      DumpIsComplete(dump, span, k);
      var e :| e in dump && e.Key() == k;
      var i :| 0 <= i < |found| && found[i] == e;
      assert found[i].Key() == k;
    }
    forall k | k in Keys(found) ensures k in span && k.source == source {
      var i :| 0 <= i < |found| && found[i].Key() == k;
      assert found[i] in dump;
    }
  }

  /** A successful unset removes the entries of the source, of both kinds, and no others. */
  lemma UnsetRemovesExactly(a: VppState, b: VppState, source: nat, dump: seq<SpanEntry>, removed: nat,
                            ready: bool, outcome: nat -> Outcome)
    requires UnsetEffect(a, b, source, dump, removed, ready, outcome, 0)
    ensures b.span == map k | k in a.span && k.source != source :: a.span[k]
  {
    KeysOfMatching(dump, a.span, source);
    var found := Matching(dump, source);
    assert found[..removed] == found;
  }

  /** The counter is the number of entries gone, also when a request failed on the way. */
  lemma UnsetCounts(a: VppState, b: VppState, source: nat, dump: seq<SpanEntry>, removed: nat,
                    ready: bool, outcome: nat -> Outcome, rc: int)
    requires UnsetEffect(a, b, source, dump, removed, ready, outcome, rc)
    ensures |b.span| + removed == |a.span|
    ensures forall k :: k in a.span && k !in b.span ==> k.source == source
  {
    hide Matching, IsDump, Keys, DistinctKeys, Enumerates;
    var gone := Matching(dump, source)[..removed];
    if removed == 0 {
      NothingRemoved(dump, source, a.span);
    } else {
      var _ := DumpIsSound(dump, a.span);
      DumpIsDistinct(dump, a.span);
      MatchingDistinct(dump, source);
      DistinctPrefix(Matching(dump, source), removed);
      KeysCount(gone);
      GoneKeys(gone, a.span, source);
      RemovedCount(a.span, Keys(gone));
    }
  }

  lemma DistinctPrefix(entries: seq<SpanEntry>, n: nat)
    requires DistinctKeys(entries) && n <= |entries|
    ensures DistinctKeys(entries[..n])
  {
  }

  lemma GoneKeys(gone: seq<SpanEntry>, span: SpanMap, source: nat)
    requires forall i :: 0 <= i < |gone| ==> gone[i].source == source && gone[i].Key() in span
    ensures Keys(gone) <= span.Keys && forall k :: k in Keys(gone) ==> k.source == source
  {
  }

  lemma RemovedCount(span: SpanMap, keys: set<SpanKey>)
    requires keys <= span.Keys
    ensures |span - keys| + |keys| == |span|
  {
    assert (span - keys).Keys == span.Keys - keys;
  }

  /** A complete unset succeeds exactly when VPP grants the removal of every entry of the source. */
  lemma UnsetSucceedsExactly(a: VppState, b: VppState, source: nat, dump: seq<SpanEntry>, removed: nat,
                             outcome: nat -> Outcome, rc: int)
    requires UnsetEffect(a, b, source, dump, removed, true, outcome, rc)
    ensures rc == 0 <==> forall k: nat :: k < |Matching(dump, source)| ==> outcome(k) == Reply(0)
  {
  }

  /** Unsetting what was just set gives the old map back when the source had no entry. */
  lemma SetThenUnset(a: VppState, b: VppState, c: VppState, source: nat, destName: string, mode: DeviceMode,
                     dump: seq<SpanEntry>, removed: nat, first: nat -> Outcome, second: nat -> Outcome)
    requires SetEffect(a, b, source, destName, mode, true, first, 0)
    requires UnsetEffect(b, c, source, dump, removed, true, second, 0)
    requires forall k :: k in a.span ==> k.source != source
    ensures c.span == a.span && removed == 1
  {
    UnsetRemovesExactly(b, c, source, dump, removed, true, second);
    UnsetCounts(b, c, source, dump, removed, true, second, 0);
    hide UnsetEffect, PositionOfIndex, PositionOfName;
    var key := SpanKey(source, DestIndex(a.interfaces, destName), false);
    AddedAndRemoved(a.span, key, StateOfMode(mode));
  }

  lemma AddedAndRemoved(span: SpanMap, key: SpanKey, state: SpanState)
    requires forall k :: k in span ==> k.source != key.source
    ensures var longer := span[key := state];
      |longer| == |span| + 1 && (map k | k in longer && k.source != key.source :: longer[k]) == span
  {
    assert span[key := state].Keys == span.Keys + {key};
  }

  /**
    A successful set leaves both endpoints up, raises no other interface, changes nothing else of
    them, and records exactly the requested entry with the state of its mode.
  */
  lemma SetRaisesBoth(a: VppState, b: VppState, source: nat, destName: string, mode: DeviceMode,
                      ready: bool, outcome: nat -> Outcome)
    requires SetEffect(a, b, source, destName, mode, ready, outcome, 0)
    ensures PositionOfIndex(a.interfaces, source).Some? && PositionOfName(a.interfaces, destName).Some?
    ensures |b.interfaces| == |a.interfaces|
    ensures var s, d := PositionOfIndex(a.interfaces, source).value, PositionOfName(a.interfaces, destName).value;
      var dest := a.interfaces[d].swIfIndex;
      && b.interfaces[s].adminUp && b.interfaces[d].adminUp
      && (forall i :: 0 <= i < |a.interfaces| ==>
            b.interfaces[i] == a.interfaces[i].(adminUp := b.interfaces[i].adminUp)
            && (a.interfaces[i].adminUp ==> b.interfaces[i].adminUp)
            && (b.interfaces[i].adminUp && !a.interfaces[i].adminUp ==> a.interfaces[i].swIfIndex in {source, dest}))
      && "memif" <= a.interfaces[d].name && dest != source
      && b.span == a.span[SpanKey(source, dest, false) :=
           match mode case DeviceRx => Rx case DeviceTx => Tx case DeviceBoth => RxTx]
  {
  }

  /** How many requests a set command sends when all are granted. */
  ghost function Requests(from: Interface, to: Interface): nat {
    1 + (if from.adminUp then 0 else 1) + if to.adminUp then 0 else 1
  }

  /**
    With the interface list at hand, a set succeeds exactly when the source is listed, the destination
    is another listed interface with a memif name, and every request is granted. A failed set leaves
    the SPAN map alone.
  */
  lemma SetSucceedsExactly(a: VppState, b: VppState, source: nat, destName: string, mode: DeviceMode,
                           outcome: nat -> Outcome, rc: int)
    requires SetEffect(a, b, source, destName, mode, true, outcome, rc)
    ensures var s, d := PositionOfIndex(a.interfaces, source), PositionOfName(a.interfaces, destName);
      rc == 0 <==>
        && s.Some? && d.Some? && "memif" <= destName && a.interfaces[d.value].swIfIndex != source
        && forall k: nat :: k < Requests(a.interfaces[s.value], a.interfaces[d.value]) ==> outcome(k) == Reply(0)
    ensures rc == 0 || (rc == 1 && b.span == a.span)
  {
    hide PositionOfIndex, PositionOfName, Raised;
    if Acceptable(a.interfaces, source, destName) {
      var from := a.interfaces[PositionOfIndex(a.interfaces, source).value];
      var to := a.interfaces[PositionOfName(a.interfaces, destName).value];
      RequestsAre(outcome, Requests(from, to));
    }
  }

  lemma RequestsAre(outcome: nat -> Outcome, n: nat)
    requires 1 <= n <= 3
    ensures (forall k: nat :: k < n ==> outcome(k) == Reply(0)) <==>
      outcome(0) == Reply(0) && (n >= 2 ==> outcome(1) == Reply(0)) && (n >= 3 ==> outcome(2) == Reply(0))
  {
  }

  /** However a set ends, it raises the destination only after the source is up. */
  lemma SourceIsRaisedFirst(a: VppState, b: VppState, source: nat, destName: string, mode: DeviceMode,
                            ready: bool, outcome: nat -> Outcome, rc: int)
    requires SetEffect(a, b, source, destName, mode, ready, outcome, rc)
    ensures |b.interfaces| == |a.interfaces|
    ensures b.interfaces != a.interfaces ==>
      && PositionOfIndex(a.interfaces, source).Some?
      && b.interfaces[PositionOfIndex(a.interfaces, source).value].adminUp
  {
  }

  // ----- runs of commands -----

  datatype Command = Set(source: nat, destName: string, mode: DeviceMode) | Unset(source: nat)

  /** A command with what it met: whether its dumps were complete, and the answers to its requests. */
  datatype Done = Done(command: Command, ready: bool, outcome: nat -> Outcome, rc: int)

  ghost predicate Step(a: VppState, b: VppState, done: Done) {
    match done.command
    case Set(source, destName, mode) =>
      SetEffect(a, b, source, destName, mode, done.ready, done.outcome, done.rc)
    case Unset(source) =>
      exists dump, removed :: UnsetEffect(a, b, source, dump, removed, done.ready, done.outcome, done.rc)
  }

  ghost predicate IsRun(states: seq<VppState>, log: seq<Done>) {
    |states| == |log| + 1 && forall i :: 0 <= i < |log| ==> Step(states[i], states[i + 1], log[i])
  }

  /** The same interfaces, up to their admin state. */
  ghost predicate SameButAdmin(a: seq<Interface>, b: seq<Interface>) {
    |a| == |b| && forall i :: 0 <= i < |a| ==> a[i] == b[i].(adminUp := a[i].adminUp)
  }

  /** The map that the log asks for, on a fixed interface list: failed commands count for nothing. */
  ghost function Expected(entries: seq<Interface>, log: seq<Done>): SpanMap {
    if log == [] then map[]
    else
      var n := |log| - 1;
      var before := Expected(entries, log[..n]);
      var c := log[n].command;
      if log[n].rc != 0 then before
      else if c.Unset? then map k | k in before && k.source != c.source :: before[k]
      else if PositionOfName(entries, c.destName).None? then before
      else before[SpanKey(c.source, DestIndex(entries, c.destName), false) := StateOfMode(c.mode)]
  }

  /** A plain entry between two different listed interfaces, the destination a memif. */
  ghost predicate SafeKey(entries: seq<Interface>, k: SpanKey) {
    && !k.l2 && k.source != k.dest
    && PositionOfIndex(entries, k.source).Some?
    && exists p :: 0 <= p < |entries| && entries[p].swIfIndex == k.dest && "memif" <= entries[p].name
  }

  ghost predicate SafeMap(entries: seq<Interface>, span: SpanMap) { forall k :: k in span ==> SafeKey(entries, k) }

  ghost predicate SubMap(a: SpanMap, b: SpanMap) { forall k :: k in a ==> k in b && a[k] == b[k] }

  lemma SamePositionsButAdmin(a: seq<Interface>, b: seq<Interface>, source: nat, name: string)
    requires SameButAdmin(a, b)
    ensures PositionOfIndex(a, source) == PositionOfIndex(b, source)
    ensures PositionOfName(a, name) == PositionOfName(b, name)
  {
    hide PositionOfIndex, PositionOfName;
    assert forall i :: 0 <= i < |a| ==> a[i].swIfIndex == b[i].swIfIndex && a[i].name == b[i].name;
    var p, q := PositionOfIndex(a, source), PositionOfIndex(b, source);
    if p.Some? { assert b[p.value].swIfIndex == source; }
    if q.Some? { assert a[q.value].swIfIndex == source; }
    var r, t := PositionOfName(a, name), PositionOfName(b, name);
    if r.Some? { assert b[r.value].name == name; }
    if t.Some? { assert a[t.value].name == name; }
  }

  lemma SetSteps(entries: seq<Interface>, a: VppState, b: VppState, source: nat, destName: string, mode: DeviceMode,
                 ready: bool, outcome: nat -> Outcome, rc: int)
    requires SetEffect(a, b, source, destName, mode, ready, outcome, rc) && SameButAdmin(a.interfaces, entries)
    ensures SameButAdmin(b.interfaces, entries)
    ensures rc != 0 ==> b.span == a.span
    ensures rc == 0 ==> PositionOfName(entries, destName).Some?
    ensures rc == 0 ==>
      var key := SpanKey(source, DestIndex(entries, destName), false);
      b.span == a.span[key := StateOfMode(mode)] && SafeKey(entries, key)
  {
    hide PositionOfIndex, PositionOfName;
    SamePositionsButAdmin(a.interfaces, entries, source, destName);
    if rc == 0 {
      var d := PositionOfName(entries, destName).value;
      assert entries[d].swIfIndex == a.interfaces[d].swIfIndex && "memif" <= entries[d].name;
    }
  }

  lemma {:induction false} ExpectedIsEnabled(entries: seq<Interface>, log: seq<Done>)
    ensures NoDisabled(Expected(entries, log))
  {
    hide PositionOfName;
    if log != [] { ExpectedIsEnabled(entries, log[..|log| - 1]); }
  }

  lemma SubMapIsEnabled(a: SpanMap, b: SpanMap)
    requires SubMap(a, b) && NoDisabled(b)
    ensures NoDisabled(a)
  {
  }

  ghost predicate NoUnsetFailed(log: seq<Done>) {
    forall i :: 0 <= i < |log| && log[i].command.Unset? ==> log[i].rc == 0
  }

  /**
    In every run from an empty SPAN map, the map holds only plain entries to memifs other than
    their source, each as last requested; with no unset failing on the way it is exactly what the
    log asks for.
  */
  lemma {:induction false} RunsAreSafe(states: seq<VppState>, log: seq<Done>)
    requires IsRun(states, log) && states[0].span == map[]
    ensures var entries, last := states[0].interfaces, states[|log|];
      && SameButAdmin(last.interfaces, entries)
      && SafeMap(entries, Expected(entries, log)) && SubMap(last.span, Expected(entries, log))
      && (NoUnsetFailed(log) ==> last.span == Expected(entries, log))
      && NoDisabled(last.span)
    decreases |log|
  {
    hide Step;
    ExpectedIsEnabled(states[0].interfaces, log);
    if log != [] {
      hide Expected, SafeMap, SubMap, SameButAdmin, NoDisabled;
      var n := |log| - 1;
      var init := states[..|states| - 1];
      RunsAreSafe(init, log[..n]);
      assert Step(states[n], states[n + 1], log[n]);
      StepKeeps(states[0].interfaces, states[n], states[n + 1], log);
    }
    SubMapIsEnabled(states[|log|].span, Expected(states[0].interfaces, log));
  }

  lemma StepKeeps(entries: seq<Interface>, a: VppState, b: VppState, log: seq<Done>)
    requires log != [] && Step(a, b, log[|log| - 1]) && SameButAdmin(a.interfaces, entries)
    ensures var before, after := Expected(entries, log[..|log| - 1]), Expected(entries, log);
      && SameButAdmin(b.interfaces, entries)
      && (SafeMap(entries, before) ==> SafeMap(entries, after))
      && (SubMap(a.span, before) ==> SubMap(b.span, after))
      && (a.span == before && (log[|log| - 1].command.Unset? ==> log[|log| - 1].rc == 0) ==> b.span == after)
  {
    hide SetEffect, UnsetEffect, SafeKey, PositionOfName;
    var done := log[|log| - 1];
    match done.command
    case Set(source, destName, mode) =>
      SetSteps(entries, a, b, source, destName, mode, done.ready, done.outcome, done.rc);
    case Unset(source) =>
      var dump, removed :| UnsetEffect(a, b, source, dump, removed, done.ready, done.outcome, done.rc);
      UnsetSteps(a, b, source, dump, removed, done.ready, done.outcome, done.rc);
  }

  lemma UnsetSteps(a: VppState, b: VppState, source: nat, dump: seq<SpanEntry>, removed: nat,
                   ready: bool, outcome: nat -> Outcome, rc: int)
    requires UnsetEffect(a, b, source, dump, removed, ready, outcome, rc)
    ensures b.interfaces == a.interfaces && SubMap(b.span, a.span)
    ensures rc == 0 ==> b.span == map k | k in a.span && k.source != source :: a.span[k]
    ensures rc == 0 || rc == 1
  {
    if rc == 0 { UnsetRemovesExactly(a, b, source, dump, removed, ready, outcome); }
  }

  // ----- runs in which nothing is refused -----

  ghost predicate Answered(done: Done) { done.ready && forall k: nat :: done.outcome(k) == Reply(0) }

  /** The commands of a log, whatever their results: acceptable sets and all unsets take effect. */
  ghost function Asked(entries: seq<Interface>, log: seq<Done>): SpanMap {
    if log == [] then map[]
    else
      var n := |log| - 1;
      var before := Asked(entries, log[..n]);
      match log[n].command
      case Unset(source) => map k | k in before && k.source != source :: before[k]
      case Set(source, destName, mode) =>
        if Acceptable(entries, source, destName)
        then before[SpanKey(source, DestIndex(entries, destName), false) := StateOfMode(mode)]
        else before
  }

  ghost predicate TakesEffect(entries: seq<Interface>, c: Command) {
    c.Unset? || Acceptable(entries, c.source, c.destName)
  }

  lemma AcceptableAgrees(a: seq<Interface>, b: seq<Interface>, source: nat, destName: string)
    requires SameButAdmin(a, b)
    ensures Acceptable(a, source, destName) <==> Acceptable(b, source, destName)
  {
    hide PositionOfIndex, PositionOfName;
    SamePositionsButAdmin(a, b, source, destName);
  }

  lemma AnsweredStep(entries: seq<Interface>, a: VppState, b: VppState, done: Done)
    requires Step(a, b, done) && Answered(done) && SameButAdmin(a.interfaces, entries)
    ensures done.rc == 0 <==> TakesEffect(entries, done.command)
  {
    hide SetEffect, UnsetEffect, PositionOfIndex, PositionOfName;
    match done.command
    case Set(source, destName, mode) =>
      SetSucceedsExactly(a, b, source, destName, mode, done.outcome, done.rc);
      AcceptableAgrees(a.interfaces, entries, source, destName);
    case Unset(source) =>
      var dump, removed :| UnsetEffect(a, b, source, dump, removed, true, done.outcome, done.rc);
      UnsetSucceedsExactly(a, b, source, dump, removed, done.outcome, done.rc);
  }

  lemma {:induction false} ExpectedIsAsked(entries: seq<Interface>, log: seq<Done>)
    requires forall i :: 0 <= i < |log| ==> (log[i].rc == 0 <==> TakesEffect(entries, log[i].command))
    ensures Expected(entries, log) == Asked(entries, log)
  {
    hide PositionOfIndex, PositionOfName;
    if log != [] { ExpectedIsAsked(entries, log[..|log| - 1]); }
  }

  /**
    When every dump is complete and every request granted, every unset succeeds, a set fails only
    for its endpoints, and the map is what the commands ask for.
  */
  lemma AnsweredRunsSucceed(states: seq<VppState>, log: seq<Done>)
    requires IsRun(states, log) && states[0].span == map[]
    requires forall i :: 0 <= i < |log| ==> Answered(log[i])
    ensures var entries := states[0].interfaces;
      && (forall i :: 0 <= i < |log| ==> (log[i].rc == 0 <==> TakesEffect(entries, log[i].command)))
      && states[|log|].span == Asked(entries, log)
  {
    hide Step, Expected, Asked, SafeMap, SubMap, SameButAdmin, NoDisabled, Answered, Acceptable;
    var entries := states[0].interfaces;
    forall i | 0 <= i < |log| ensures log[i].rc == 0 <==> TakesEffect(entries, log[i].command) {
      RunsAreSafe(states[..i + 1], log[..i]);
      AnsweredStep(entries, states[i], states[i + 1], log[i]);
    }
    RunsAreSafe(states, log);
    ExpectedIsAsked(entries, log);
  }
}
