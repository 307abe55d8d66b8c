/** `boy_set_span` and `boy_unset_span` of boy/commands/span_cmd.c against the VPP state. */
module SpanCommands {
  import opened Collectors
  import opened Interfaces
  import opened Memory
  import opened Vpp

  datatype DeviceMode = DeviceRx | DeviceTx | DeviceBoth

  /** Lines 119-130. */
  function StateOfMode(mode: DeviceMode): (r: SpanState)
    ensures r != Disabled
  {
    match mode
    case DeviceRx => Rx
    case DeviceTx => Tx
    case DeviceBoth => RxTx
  }

  /** How the connection and the dumps of one command end; `outcome(k)` is that of its k-th request. */
  datatype Environment = Environment(
    connects: bool, interfacesSent: bool, interfacesComplete: bool,
    spanSent: bool, spanComplete: bool, l2Sent: bool, l2Complete: bool,
    outcome: nat -> Outcome
  ) {
    predicate InterfacesArrive() { connects && interfacesSent && interfacesComplete }

    predicate DumpsArrive() { InterfacesArrive() && spanSent && spanComplete && l2Sent && l2Complete }
  }

  datatype VppState = VppState(interfaces: seq<Interface>, span: SpanMap)

  ghost function StateOf(vpp: Server): VppState
    reads vpp
  {
    VppState(vpp.interfaces, vpp.span)
  }

  /** Lines 53-89. */
  method SetSpanEntry(vpp: Server, source: nat, dest: nat, state: SpanState, l2: bool, outcome: Outcome)
    returns (rc: int)
    modifies vpp`span
    ensures rc == if outcome == Reply(0) then 0 else 1
    ensures vpp.span == if rc == 0 then WithSpan(old(vpp.span), SpanKey(source, dest, l2), state) else old(vpp.span)
  {
    if outcome == NoMessage {
      return 1;
    }
    vpp.SetSpan(source, dest, state, l2, outcome);
    if outcome == CallFailed || outcome == NoReply {
      return 1;
    }
    rc := if outcome.retval != 0 then 1 else 0;
  }

  /** `boy_set_interface_admin_up` of vpp_client.c. */
  method SetInterfaceAdminUp(vpp: Server, swIfIndex: nat, outcome: Outcome) returns (rc: int)
    modifies vpp`interfaces
    ensures rc == if outcome == Reply(0) then 0 else 1
    ensures vpp.interfaces == if rc == 0 then AdminUp(old(vpp.interfaces), swIfIndex) else old(vpp.interfaces)
  {
    if outcome == NoMessage {
      return 1;
    }
    vpp.SetAdminUp(swIfIndex, outcome);
    if outcome == CallFailed || outcome == NoReply {
      return 1;
    }
    rc := if outcome.retval != 0 then 1 else 0;
  }

  // ----- set -----

  /** The endpoints a set command accepts: an existing source and another, memif-named destination. */
  ghost predicate Acceptable(entries: seq<Interface>, source: nat, destName: string) {
    && PositionOfIndex(entries, source).Some?
    && PositionOfName(entries, destName).Some?
    && "memif" <= destName
    && entries[PositionOfName(entries, destName).value].swIfIndex != source
  }

  ghost function DestIndex(entries: seq<Interface>, destName: string): nat
    requires PositionOfName(entries, destName).Some?
  {
    entries[PositionOfName(entries, destName).value].swIfIndex
  }

  /** `b` is `a` with one more interface up, if that interface was down at its first position. */
  ghost function Raised(entries: seq<Interface>, position: nat, now: seq<Interface>): seq<Interface>
    requires position < |entries|
  {
    if entries[position].adminUp then now else AdminUp(now, entries[position].swIfIndex)
  }

  /**
    What a set command does once the interface list is complete (`ready`): its requests are raising
    the source and the destination, each only if it is down, and then the entry. It goes as far as
    they are granted, and the SPAN map changes with the last one only.
  */
  ghost predicate SetEffect(a: VppState, b: VppState, source: nat, destName: string, mode: DeviceMode,
                            ready: bool, outcome: nat -> Outcome, rc: int) {
    if !ready || !Acceptable(a.interfaces, source, destName) then rc == 1 && b == a
    else
      var s, d := PositionOfIndex(a.interfaces, source).value, PositionOfName(a.interfaces, destName).value;
      var one := Raised(a.interfaces, s, a.interfaces);
      var both := Raised(a.interfaces, d, one);
      var second := Calls(a.interfaces[s]);
      var last := second + Calls(a.interfaces[d]);
      if second == 1 && outcome(0) != Reply(0) then rc == 1 && b == a
      else if second < last && outcome(second) != Reply(0) then rc == 1 && b == VppState(one, a.span)
      else if outcome(last) != Reply(0) then rc == 1 && b == VppState(both, a.span)
      else
        rc == 0
        && b == VppState(both, a.span[SpanKey(source, a.interfaces[d].swIfIndex, false) := StateOfMode(mode)])
  }

  /** How many requests raising an interface takes. */
  ghost function Calls(entry: Interface): nat { if entry.adminUp then 0 else 1 }

  /** Lines 331-337 and 339-346: the interface as listed decides whether a request is sent. */
  method RaiseIfDown(vpp: Server, entry: Interface, outcome: Outcome) returns (rc: int, calls: nat)
    modifies vpp`interfaces
    ensures vpp.interfaces == if entry.adminUp || rc != 0 then old(vpp.interfaces)
                              else AdminUp(old(vpp.interfaces), entry.swIfIndex)
    ensures rc == if entry.adminUp || outcome == Reply(0) then 0 else 1
    ensures calls == Calls(entry)
  {
    rc, calls := 0, 0;
    if !entry.adminUp {
      calls := 1;
      rc := SetInterfaceAdminUp(vpp, entry.swIfIndex, outcome);
    }
  }

  /** Lines 309-361: the checks and requests on the collected interfaces. */
  method SetSpanAmong(vpp: Server, entries: seq<Interface>, source: nat, destName: string, mode: DeviceMode,
                      outcome: nat -> Outcome) returns (rc: int)
    requires entries == vpp.interfaces
    modifies vpp
    ensures SetEffect(old(StateOf(vpp)), StateOf(vpp), source, destName, mode, true, outcome, rc)
  {
    hide PositionOfIndex, PositionOfName, AdminUp, StateOfMode;
    rc := 1;
    var s := FindByIndex(entries, source);
    if s.None? {
      return;
    }
    var d := FindByName(entries, destName);
    if d.None? {
      return;
    }
    var from, to := entries[s.value], entries[d.value];
    if !("memif" <= to.name) {
      return;
    }
    if from.swIfIndex == to.swIfIndex {
      return;
    }
    var raised, calls := RaiseIfDown(vpp, from, outcome(0));
    if raised != 0 {
      return;
    }
    var more;
    raised, more := RaiseIfDown(vpp, to, outcome(calls));
    calls := calls + more;
    if raised != 0 {
      return;
    }
    var state := StateOfMode(mode);
    var done := SetSpanEntry(vpp, from.swIfIndex, to.swIfIndex, state, false, outcome(calls));
    if done != 0 {
      return;
    }
    rc := 0;
  }

  /** Lines 291-367. The heap is left as it was found. */
  method SetSpan(vpp: Server, heap: Heap, source: nat, destName: string, mode: DeviceMode, env: Environment)
    returns (rc: int)
    requires heap.Valid()
    modifies vpp, heap
    ensures heap.Valid() && heap.live == old(heap.live)
    ensures SetEffect(old(StateOf(vpp)), StateOf(vpp), source, destName, mode,
                      env.InterfacesArrive() && heap.refused == old(heap.refused), env.outcome, rc)
  {
    hide Raised, PositionOfIndex, PositionOfName, EntryTable.Valid, Heap.Valid;
    var table := new EntryTable<Interface>(heap);
    var collected := 1;
    if env.connects {
      collected := table.Collect(vpp.interfaces, env.interfacesSent, env.interfacesComplete);
    }
    rc := 1;
    if collected == 0 {
      rc := SetSpanAmong(vpp, table.Contents(), source, destName, mode, env.outcome);
    }
    table.Free();
  }

  // ----- unset -----

  /** The entries of one source, in dump order. */
  function Matching(entries: seq<SpanEntry>, source: nat): (r: seq<SpanEntry>)
    ensures forall i :: 0 <= i < |r| ==> r[i].source == source && r[i] in entries
    ensures forall e :: e in entries && e.source == source ==> e in r
  {
    if entries == [] then []
    else
      var n := |entries| - 1;
      Matching(entries[..n], source) + if entries[n].source == source then [entries[n]] else []
  }

  ghost function Keys(entries: seq<SpanEntry>): set<SpanKey> {
    set i | 0 <= i < |entries| :: entries[i].Key()
  }

  /** The dump that the unset and show commands work on: non-L2 entries, then L2 entries. */
  ghost predicate IsDump(dump: seq<SpanEntry>, span: SpanMap) {
    exists k :: 0 <= k <= |dump| && Enumerates(dump[..k], span, false) && Enumerates(dump[k..], span, true)
  }

  /**
    What an unset command does once interfaces and entries are collected (`ready`): it removes the
    first `removed` entries of the source, all of them or up to the first request that is refused.
  */
  ghost predicate UnsetEffect(a: VppState, b: VppState, source: nat, dump: seq<SpanEntry>, removed: nat,
                              ready: bool, outcome: nat -> Outcome, rc: int) {
    && b.interfaces == a.interfaces && (rc == 0 || rc == 1)
    && removed <= |Matching(dump, source)|
    && b.span == a.span - Keys(Matching(dump, source)[..removed])
    && (ready ==> IsDump(dump, a.span) && (rc == 0 <==> removed == |Matching(dump, source)|))
    && (!ready ==> rc == 1 && removed == 0)
    && (forall k: nat :: k < removed ==> outcome(k) == Reply(0))
    && (ready && rc == 1 ==> outcome(removed) != Reply(0))
  }

  /** Lines 160-165 and 244-249: both dumps into one table. */
  method CollectSpan(vpp: Server, table: EntryTable<SpanEntry>, env: Environment) returns (rc: int)
    requires table.Valid() && table.Contents() == []
    modifies table, table.entries, table.heap
    ensures table.Valid() && (table.entries == old(table.entries) || fresh(table.entries))
    ensures table.heap.live - BlockOf(table.block) == old(table.heap.live - BlockOf(table.block))
    ensures table.heap.refused >= old(table.heap.refused)
    ensures (rc == 0 <==>
      && env.spanSent && env.spanComplete && env.l2Sent && env.l2Complete
      && table.heap.refused == old(table.heap.refused))
    ensures rc == 0 ==> IsDump(table.Contents(), vpp.span)
  {
    hide EntryTable.Valid, BlockOf;
    var plain := vpp.DumpSpan(false);
    rc := table.Collect(plain, env.spanSent, env.spanComplete);
    if rc != 0 {
      return;
    }
    var l2 := vpp.DumpSpan(true);
    rc := table.Collect(l2, env.l2Sent, env.l2Complete);
    if rc != 0 {
      return;
    }
    ghost var entries := table.Contents();
    assert entries[..|plain|] == plain && entries[|plain|..] == l2;
  }

  /** Two tables on one heap that own different blocks. */
  ghost predicate Apart(interfaces: EntryTable<Interface>, span: EntryTable<SpanEntry>)
    reads interfaces, span, interfaces.heap, span.heap
    ensures Apart(interfaces, span) ==> interfaces.Valid() && span.Valid()
  {
    && interfaces.heap == span.heap && interfaces.Valid() && span.Valid()
    && BlockOf(interfaces.block) !! BlockOf(span.block)
  }

  ghost function OthersLive(interfaces: EntryTable<Interface>, span: EntryTable<SpanEntry>): set<nat>
    reads interfaces, span, span.heap
  {
    span.heap.live - BlockOf(interfaces.block) - BlockOf(span.block)
  }

  /** Lines 153-165 and 237-249: connecting and collecting. */
  method CollectBoth(vpp: Server, interfaces: EntryTable<Interface>, span: EntryTable<SpanEntry>, env: Environment)
    returns (rc: int)
    requires Apart(interfaces, span) && interfaces.block.None? && span.block.None?
    requires interfaces.Contents() == [] && span.Contents() == []
    modifies interfaces, interfaces.entries, span, span.entries, span.heap
    ensures Apart(interfaces, span) && OthersLive(interfaces, span) == old(OthersLive(interfaces, span))
    ensures rc == 0 <==> env.DumpsArrive() && span.heap.refused == old(span.heap.refused)
    ensures rc == 0 ==> interfaces.Contents() == vpp.interfaces && IsDump(span.Contents(), vpp.span)
  {
    hide IsDump;
    rc := 1;
    if !env.connects {
      return;
    }
    rc := interfaces.Collect(vpp.interfaces, env.interfacesSent, env.interfacesComplete);
    if rc != 0 {
      return;
    }
    ghost var live := span.heap.live;
    rc := CollectSpan(vpp, span, env);
    ApartBlocks(BlockOf(interfaces.block), BlockOf(span.block), live, span.heap.live);
  }

  /** The blocks of two tables that one heap grew by, one table after the other. */
  lemma ApartBlocks(first: set<nat>, second: set<nat>, before: set<nat>, after: set<nat>)
    requires first <= before && second <= after && after - second == before
    ensures first !! second && first <= after && after - first - second == before - first
  {
  }

  /** Lines 219-220 and 285-286. */
  method ReleaseBoth(interfaces: EntryTable<Interface>, span: EntryTable<SpanEntry>)
    requires Apart(interfaces, span)
    modifies interfaces, span, span.heap
    ensures span.heap.Valid() && span.heap.live == old(OthersLive(interfaces, span))
    ensures span.heap.refused == old(span.heap.refused)
  {
    hide Heap.Valid;
    span.Free();
    interfaces.Free();
  }

  /** Lines 252-272: one request per matching entry, up to the first that fails. */
  method RemoveEntries(vpp: Server, entries: seq<SpanEntry>, source: nat, outcome: nat -> Outcome)
    returns (rc: int, removed: nat)
    modifies vpp`span
    ensures rc == 0 || rc == 1
    ensures removed <= |Matching(entries, source)|
    ensures rc == 0 <==> removed == |Matching(entries, source)|
    ensures forall k: nat :: k < removed ==> outcome(k) == Reply(0)
    ensures rc == 1 ==> outcome(removed) != Reply(0)
    ensures vpp.span == old(vpp.span) - Keys(Matching(entries, source)[..removed])
  {
    hide Matching, Keys;
    ghost var goal := Matching(entries, source);
    NothingRemoved(entries, source, vpp.span);
    assert entries[..|entries|] == entries;
    rc, removed := 1, 0;
    var i := 0;
    while i < |entries|
      invariant i <= |entries| && removed <= |goal| && Matching(entries[..i], source) == goal[..removed]
      invariant vpp.span == old(vpp.span) - Keys(goal[..removed])
      invariant forall k: nat :: k < removed ==> outcome(k) == Reply(0)
    {
      MatchingPrefix(entries, source, i);
      var entry := entries[i];
      if entry.source == source {
        var done := SetSpanEntry(vpp, entry.source, entry.dest, Disabled, entry.l2, outcome(removed));
        assert goal[removed] == entry && removed < |goal|;
        if done != 0 {
          return;
        }
        KeysNext(goal, removed);
        removed := removed + 1;
      }
      i := i + 1;
    }
    rc := 0;
  }

  lemma NothingRemoved(entries: seq<SpanEntry>, source: nat, span: SpanMap)
    ensures Matching(entries[..0], source) == [] && span - Keys(Matching(entries, source)[..0]) == span
  {
    assert entries[..0] == [] && Keys(Matching(entries, source)[..0]) == {};
  }

  /** Lines 225-289; `removed` is the counter of the source. The heap is left as it was found. */
  method UnsetSpan(vpp: Server, heap: Heap, source: nat, env: Environment)
    returns (rc: int, removed: nat, ghost dump: seq<SpanEntry>)
    requires heap.Valid()
    modifies vpp`span, heap
    ensures heap.Valid() && heap.live == old(heap.live)
    ensures UnsetEffect(old(StateOf(vpp)), StateOf(vpp), source, dump, removed,
                        env.DumpsArrive() && heap.refused == old(heap.refused), env.outcome, rc)
  {
    hide Matching, Keys, IsDump, EntryTable.Valid, Heap.Valid;
    rc, removed, dump := 1, 0, [];
    NothingRemoved([], source, vpp.span);
    var interfaces := new EntryTable<Interface>(heap);
    var span := new EntryTable<SpanEntry>(heap);
    var collected := CollectBoth(vpp, interfaces, span, env);
    if collected == 0 {
      dump := span.Contents();
      rc, removed := RemoveEntries(vpp, span.Contents(), source, env.outcome);
    }
    ReleaseBoth(interfaces, span);
  }

  /** How the matching entries of a prefix grow. */
  lemma {:induction false} MatchingPrefix(entries: seq<SpanEntry>, source: nat, i: nat)
    requires i < |entries|
    ensures var now, next := Matching(entries[..i], source), Matching(entries[..i + 1], source);
      && now <= next <= Matching(entries, source)
      && next == now + if entries[i].source == source then [entries[i]] else []
    decreases |entries|
  {
    assert entries[..i + 1][..i] == entries[..i];
    if i + 1 == |entries| {
      assert entries[..i + 1] == entries;
    } else {
      var init := entries[..|entries| - 1];
      assert init[..i] == entries[..i] && init[..i + 1] == entries[..i + 1];
      MatchingPrefix(init, source, i);
    }
  }

  lemma KeysNext(entries: seq<SpanEntry>, n: nat)
    requires n < |entries|
    ensures Keys(entries[..n + 1]) == Keys(entries[..n]) + {entries[n].Key()}
  {
    var shorter, longer := entries[..n], entries[..n + 1];
    assert longer[n].Key() in Keys(longer);
    assert forall i :: 0 <= i < n ==> shorter[i] == longer[i];
    forall k | k in Keys(shorter) ensures k in Keys(longer) {
      var i :| 0 <= i < n && shorter[i].Key() == k;
      assert longer[i].Key() == k;
    }
  }
}
