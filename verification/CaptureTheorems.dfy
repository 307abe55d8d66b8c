/** What holds of every run of beastie/commands/capture_cmd.c, whatever the environment does. */
module CaptureTheorems {
  import opened Capture
  import opened PcapWriter
  import opened Sums

  // ----- what is promised -----

  ghost predicate Fits(limit: nat, packets: seq<Packet>) { limit == 0 || Bytes(packets) <= limit }

  /** `part` is a prefix of `all` within the limit, and one packet more would not be. */
  ghost predicate IsLongestFit(limit: nat, all: seq<Packet>, part: seq<Packet>) {
    part <= all && Fits(limit, part) && (|part| < |all| ==> !Fits(limit, all[..|part| + 1]))
  }

  lemma BytesOfPrefix(all: seq<Packet>, k: nat, l: nat)
    requires k <= l <= |all|
    ensures Bytes(all[..k]) <= Bytes(all[..l])
  {
    assert all[..l] == all[..k] + all[k..l];
    BytesConcat(all[..k], all[k..l]);
  }

  /** No prefix within the limit is longer. */
  lemma LongestFitIsLongest(limit: nat, all: seq<Packet>, part: seq<Packet>, other: seq<Packet>)
    requires IsLongestFit(limit, all, part) && other <= all && Fits(limit, other)
    ensures |other| <= |part|
  {
    assert all[..|other|] == other;
    if |part| < |other| { BytesOfPrefix(all, |part| + 1, |other|); }
  }

  lemma BytesAppend(packets: seq<Packet>, packet: Packet)
    ensures Bytes(packets + [packet]) == Bytes(packets) + |packet|
  {
    assert (packets + [packet])[..|packets|] == packets;
  }

  // ----- 64-bit counting -----

  /** The largest limits for which adding one packet to a running count cannot wrap at 64 bits. */
  predicate LimitSafe(limit: nat) { limit <= 0xffff_ffff_0000_0001 }

  /** The byte count cannot wrap: too little is delivered, or the limit stops it before. */
  ghost predicate NoWrap(limit: nat, delivered: seq<Packet>) {
    Bytes(delivered) < 0x1_0000_0000_0000_0000 || (limit > 0 && LimitSafe(limit))
  }

  /** The admission test means what it says for every running count exactly when the limit is safe. */
  lemma AdmissionExact(limit: nat)
    requires 0 < limit < 0x1_0000_0000_0000_0000
    ensures (forall bytes: nat, len: nat :: bytes < limit && len < 0x1_0000_0000 ==>
              (Admits(limit, bytes, len) <==> bytes + len <= limit))
       <==> LimitSafe(limit)
  {
    var bytes: nat, len: nat := limit - 1, 0xffff_ffff;
    if !LimitSafe(limit) {
      assert bytes + len >= U64 && Add64(bytes, len) == bytes + len - U64 <= limit < bytes + len;
      assert Admits(limit, bytes, len);
    }
  }

  // ----- the invariant -----

  /** What holds of the file and the counters without any assumption. */
  ghost predicate Shape(s: RunState) {
    && (s.fileOpen <==> s.file != [])
    && s.creations == (if s.fileOpen then 1 else 0)
    && s.packets == |s.file| % U64
    && (!s.fileOpen ==> s.bytes == s.unflushed == s.flushed == 0)
  }

  /** What the byte counters say when they do not wrap. */
  ghost predicate Exact(limit: nat, s: RunState) {
    s.bytes == Bytes(s.file) && s.flushed + s.unflushed == s.bytes && Fits(limit, s.file)
  }

  /** The burst stopped at `part` for a reason: the limit is reached, or the next packet exceeds it. */
  ghost predicate CutOff(limit: nat, all: seq<Packet>, part: seq<Packet>) {
    && part <= all && Fits(limit, part)
    && (|part| < |all| ==> limit > 0 && (Bytes(part) == limit || !Fits(limit, all[..|part| + 1])))
  }

  /** The limit is reached exactly, and the next packet has no bytes. */
  ghost predicate EmptyNext(limit: nat, all: seq<Packet>, part: seq<Packet>) {
    limit > 0 && Bytes(part) == limit && |part| < |all| && all[|part|] == []
  }

  /** Stopping at the limit is stopping at the longest fit, but for an empty packet. */
  lemma CutOffIsLongest(limit: nat, all: seq<Packet>, part: seq<Packet>)
    requires CutOff(limit, all, part)
    ensures IsLongestFit(limit, all, part) <==> !EmptyNext(limit, all, part)
  {
    hide Bytes;
    if |part| < |all| {
      BytesAppend(part, all[|part|]);
      assert all[..|part| + 1] == part + [all[|part|]];
    }
  }

  /** Within a burst of which `rest` is still to come. */
  ghost predicate Capturing(limit: nat, s: RunState, rest: seq<Packet>) {
    && !s.writeFailed && Shape(s) && s.file + rest == s.delivered
    && (NoWrap(limit, s.delivered) ==> Exact(limit, s) && (limit > 0 ==> s.bytes < limit))
  }

  /** After the last packet that was looked at. */
  ghost predicate Stopped(limit: nat, s: RunState) {
    && Shape(s) && s.file <= s.delivered
    && (NoWrap(limit, s.delivered) ==> Exact(limit, s) && (!s.writeFailed ==> CutOff(limit, s.delivered, s.file)))
    && (limit == 0 && !s.writeFailed ==> s.file == s.delivered)
    && (s.writeFailed ==> s.file == [] && s.delivered != [] && Fits(limit, s.delivered[..1]))
  }

  ghost predicate Inv(limit: nat, s: RunState) {
    && Stopped(limit, s)
    && (s.running ==> Capturing(limit, s, []) && s.unflushed < FLUSH_INTERVAL)
    && (s.writeFailed ==> !s.running && !s.pollFailed)
  }

  /** The running counts after one more packet, as plain sums. */
  lemma OneMorePacket(limit: nat, s: RunState, rest: seq<Packet>)
    requires rest != [] && Capturing(limit, s, rest) && NoWrap(limit, s.delivered)
    ensures Bytes(s.file + [rest[0]]) == s.bytes + |rest[0]| == Add64(s.bytes, |rest[0]|)
    ensures Add64(s.unflushed, |rest[0]|) == s.unflushed + |rest[0]|
  {
    hide Bytes;
    var n := |s.file| + 1;
    BytesAppend(s.file, rest[0]);
    assert s.delivered[..n] == s.file + [rest[0]] && s.delivered[..|s.delivered|] == s.delivered;
    BytesOfPrefix(s.delivered, n, |s.delivered|);
    assert s.bytes + |rest[0]| < U64;
  }

  /** A record is written and counted. */
  lemma RecordKeeps(limit: nat, s: RunState, rest: seq<Packet>)
    requires rest != [] && Capturing(limit, s, rest) && Admits(limit, s.bytes, |rest[0]|)
    ensures var t := Recorded(s, rest[0]);
      && Shape(t) && t.file + rest[1..] == s.delivered && s.file <= t.file
      && (NoWrap(limit, s.delivered) ==> Exact(limit, t) && t.bytes == s.bytes + |rest[0]|)
  {
    hide Bytes, NoWrap;
    assert s.file + [rest[0]] + rest[1..] == s.delivered;
    if NoWrap(limit, s.delivered) { OneMorePacket(limit, s, rest); }
  }

  lemma PacketKeeps(limit: nat, s: RunState, rest: seq<Packet>, canOpen: bool)
    requires rest != [] && Capturing(limit, s, rest)
    ensures var (t, ending) := AfterPacket(limit, s, rest[0], canOpen);
      && t.delivered == s.delivered && t.pollFailed == s.pollFailed && s.file <= t.file
      && (if ending == More then Capturing(limit, t, rest[1..]) && t.running == s.running
          else Stopped(limit, t) && !t.running)
      && (ending == Failed <==> t.writeFailed)
  {
    hide Bytes, NoWrap, Add64;
    var longer := s.file + [rest[0]];
    assert s.delivered[..|longer|] == longer && s.file <= s.delivered;
    if NoWrap(limit, s.delivered) { OneMorePacket(limit, s, rest); }
    if !Admits(limit, s.bytes, |rest[0]|) {
    } else if !s.fileOpen && !canOpen {
      FirstPacketFits(limit, rest[0]);
      assert s.delivered[..1] == [rest[0]];
    } else {
      RecordKeeps(limit, s, rest);
      assert longer <= s.delivered;
    }
  }

  /** An admitted first packet fits: its length alone cannot wrap. */
  lemma FirstPacketFits(limit: nat, packet: Packet)
    requires Admits(limit, 0, |packet|)
    ensures Fits(limit, [packet])
  {
    assert [] + [packet] == [packet];
    BytesAppend([], packet);
  }

  lemma {:induction false} PacketsKeep(limit: nat, s: RunState, rest: seq<Packet>, canOpen: bool)
    requires Capturing(limit, s, rest)
    ensures var (t, ending) := AfterPackets(limit, s, rest, canOpen);
      && t.delivered == s.delivered && t.pollFailed == s.pollFailed && s.file <= t.file && Stopped(limit, t)
      && (if ending == More then Capturing(limit, t, []) && t.running == s.running else !t.running)
      && (ending == Failed <==> t.writeFailed)
    decreases |rest|
  {
    hide NoWrap, Shape, Exact, AfterPacket, Bytes, CutOff, Fits;
    if rest == [] {
      AllIsCutOff(limit, s);
    } else {
      var (t, ending) := AfterPacket(limit, s, rest[0], canOpen);
      PacketKeeps(limit, s, rest, canOpen);
      if ending == More { PacketsKeep(limit, t, rest[1..], canOpen); }
    }
  }

  lemma AllIsCutOff(limit: nat, s: RunState)
    requires Capturing(limit, s, [])
    ensures Stopped(limit, s) && s.file == s.delivered
  {
    hide Bytes, NoWrap;
    assert s.file == s.delivered;
  }

  /** Flushing moves the unflushed bytes to the flushed ones and leaves less than the interval behind. */
  lemma FlushKeeps(limit: nat, s: RunState, flushes: bool)
    requires Stopped(limit, s) && !s.writeFailed && (s.running ==> Capturing(limit, s, []))
    ensures var t := AfterFlush(s, flushes);
      && Stopped(limit, t) && t.file == s.file && t.delivered == s.delivered && !t.writeFailed
      && t.pollFailed == s.pollFailed
      && (t.running ==> Capturing(limit, t, []) && t.unflushed < FLUSH_INTERVAL)
  {
    hide Bytes, NoWrap, CutOff;
    if s.unflushed >= FLUSH_INTERVAL { assert s.fileOpen; }
  }

  function PacketsOf(d: Delivery): seq<Packet> { if d.Burst? then d.packets else [] }

  /** The assumption on the counters survives dropping what comes later. */
  lemma NoWrapBefore(limit: nat, a: seq<Packet>, b: seq<Packet>)
    requires NoWrap(limit, a + b)
    ensures NoWrap(limit, a)
  {
    BytesConcat(a, b);
  }

  /** A burst arrives at a running capture. */
  lemma BurstBegins(limit: nat, s: RunState, packets: seq<Packet>)
    requires Capturing(limit, s, [])
    ensures Capturing(limit, s.(delivered := s.delivered + packets), packets)
  {
    hide Bytes, NoWrap;
    if NoWrap(limit, s.delivered + packets) { NoWrapBefore(limit, s.delivered, packets); }
    assert s.file == s.delivered;
  }

  lemma DeliveryKeeps(limit: nat, s: RunState, d: Delivery)
    requires Inv(limit, s) && s.running && !s.pollFailed
    ensures var t := AfterDelivery(limit, s, d);
      && Inv(limit, t) && t.delivered == s.delivered + PacketsOf(d) && s.file <= t.file && !t.pollFailed
  {
    hide NoWrap, Bytes, AfterPackets, AfterFlush, Stopped, Capturing;
    if d.Burst? {
      var begun := s.(delivered := s.delivered + d.packets);
      BurstBegins(limit, s, d.packets);
      PacketsKeep(limit, begun, d.packets, d.handle && d.opens);
      var (t, ending) := AfterPackets(limit, begun, d.packets, d.handle && d.opens);
      if ending != Failed { FlushKeeps(limit, t, d.flushes); }
    }
  }

  lemma PollKeeps(limit: nat, s: RunState, e: Event)
    requires Inv(limit, s) && !Over(s)
    ensures var t := AfterPoll(limit, s, e);
      Inv(limit, t) && t.delivered == s.delivered + PacketsOf(e.delivery) && s.file <= t.file
  {
    hide NoWrap, Bytes, AfterDelivery, CutOff, Fits;
    DeliveryKeeps(limit, s, e.delivery);
  }

  // ----- runs -----

  function AllPackets(events: seq<Event>): seq<Packet> {
    if events == [] then [] else PacketsOf(events[0].delivery) + AllPackets(events[1..])
  }

  lemma {:induction false} RunKeeps(limit: nat, s: RunState, events: seq<Event>)
    requires Inv(limit, s)
    ensures var t := Run(limit, s, events);
      Inv(limit, t) && s.file <= t.file && t.delivered <= s.delivered + AllPackets(events)
    decreases |events|
  {
    hide Inv, AfterPoll;
    if events != [] && !Over(s) {
      var e := events[0];
      assert s.delivered + AllPackets(events) == s.delivered + PacketsOf(e.delivery) + AllPackets(events[1..]);
      PollKeeps(limit, s, e);
      RunKeeps(limit, AfterPoll(limit, s, e), events[1..]);
    }
  }

  /** Before anything was captured. */
  ghost predicate Fresh(s: RunState) {
    && s.running && !s.writeFailed && !s.pollFailed && !s.fileOpen && s.file == s.delivered == []
    && s.packets == s.bytes == s.unflushed == s.flushed == s.creations == 0
  }

  lemma FreshInv(limit: nat, s: RunState)
    requires Fresh(s)
    ensures Inv(limit, s)
  {
    assert Bytes(s.file) == 0;
    hide Bytes, NoWrap;
    PrefixOfItself(s.file);
  }

  lemma PrefixOfItself(a: seq<Packet>)
    ensures a <= a
  {
  }

  lemma EndInv(limit: nat, events: seq<Event>)
    ensures Inv(limit, Run(limit, INITIAL, events))
    ensures Run(limit, INITIAL, events).delivered <= AllPackets(events)
  {
    hide Inv, Run;
    FreshInv(limit, INITIAL);
    assert INITIAL.delivered + AllPackets(events) == AllPackets(events);
    RunKeeps(limit, INITIAL, events);
  }

  lemma EndNoWrap(limit: nat, events: seq<Event>)
    requires NoWrap(limit, AllPackets(events))
    ensures NoWrap(limit, Run(limit, INITIAL, events).delivered)
  {
    hide Run, Inv, NoWrap;
    EndInv(limit, events);
    var all, delivered := AllPackets(events), Run(limit, INITIAL, events).delivered;
    assert all == delivered + all[|delivered|..];
    NoWrapBefore(limit, delivered, all[|delivered|..]);
  }

  /**
    In every run the file is a prefix of the delivered packets and was created at most once, and
    only for a record; a running capture has less than the flush interval unflushed.
  */
  lemma FileIsPrefix(limit: nat, events: seq<Event>)
    ensures var end := Run(limit, INITIAL, events);
      && end.file <= end.delivered <= AllPackets(events)
      && end.packets == |end.file| % 0x1_0000_0000_0000_0000
      && end.creations == (if end.file == [] then 0 else 1)
      && (end.running ==> end.file == end.delivered && end.unflushed < 1048576)
  {
    hide Run, Bytes, NoWrap;
    EndInv(limit, events);
    var end := Run(limit, INITIAL, events);
    if end.running { assert end.file + [] == end.file; }
  }

  /** As long as the byte count does not wrap, the byte counters are exact and the limit holds. */
  lemma CountersAreExact(limit: nat, events: seq<Event>)
    requires NoWrap(limit, AllPackets(events))
    ensures var end := Run(limit, INITIAL, events);
      && end.bytes == Bytes(end.file) && (limit > 0 ==> end.bytes <= limit)
      && end.bytes == end.flushed + end.unflushed
      && (end.running && limit > 0 ==> end.bytes < limit)
  {
    hide Run, Bytes, NoWrap;
    EndInv(limit, events);
    EndNoWrap(limit, events);
  }

  // ----- when a packet cannot be written -----

  /** Nothing in the event ends the capture apart from its packets. */
  predicate Quiet(e: Event) { !e.signalInPoll && e.result != PollFailed && !e.signalAfter }

  /** The first packet that is delivered is admitted, and the file for it cannot be opened. */
  predicate OpenFails(limit: nat, events: seq<Event>)
    decreases |events|
  {
    events != [] &&
    var d := events[0].delivery;
    if PacketsOf(d) != [] then (limit == 0 || |d.packets[0]| <= limit) && !(d.handle && d.opens)
    else Quiet(events[0]) && OpenFails(limit, events[1..])
  }

  lemma {:induction false} OpenStaysOpen(limit: nat, s: RunState, packets: seq<Packet>, canOpen: bool)
    requires s.fileOpen || canOpen
    ensures var (t, ending) := AfterPackets(limit, s, packets, canOpen);
      t.writeFailed == s.writeFailed && ending != Failed && (s.fileOpen ==> t.fileOpen)
    decreases |packets|
  {
    if packets != [] {
      var (t, ending) := AfterPacket(limit, s, packets[0], canOpen);
      if ending == More { OpenStaysOpen(limit, t, packets[1..], canOpen); }
    }
  }

  lemma {:induction false} OpenRunFailsNoWrite(limit: nat, s: RunState, events: seq<Event>)
    requires s.fileOpen
    ensures Run(limit, s, events).writeFailed == s.writeFailed
    decreases |events|
  {
    if events != [] && !Over(s) {
      var d := events[0].delivery;
      if d.Burst? {
        OpenStaysOpen(limit, s.(delivered := s.delivered + d.packets), d.packets, d.handle && d.opens);
      }
      OpenRunFailsNoWrite(limit, AfterPoll(limit, s, events[0]), events[1..]);
    }
  }

  /** The first packets of a run: rejected, failed, or on their way into an open file. */
  lemma FirstPackets(limit: nat, s: RunState, packets: seq<Packet>, canOpen: bool)
    requires packets != [] && !s.fileOpen && s.bytes == 0 && !s.writeFailed
    ensures var (t, ending) := AfterPackets(limit, s, packets, canOpen);
      && (t.writeFailed <==> (limit == 0 || |packets[0]| <= limit) && !canOpen)
      && (ending == Failed <==> t.writeFailed)
      && (t.fileOpen || !t.running)
  {
    var (t, ending) := AfterPacket(limit, s, packets[0], canOpen);
    if ending == More { OpenStaysOpen(limit, t, packets[1..], canOpen); }
  }

  lemma {:induction false} WriteFailsWhenOpenFails(limit: nat, s: RunState, events: seq<Event>)
    requires s.running && !s.pollFailed && !s.writeFailed && !s.fileOpen && s.bytes == s.unflushed == 0
    ensures Run(limit, s, events).writeFailed <==> OpenFails(limit, events)
    decreases |events|
  {
    if events != [] {
      var e := events[0];
      var d, t := e.delivery, AfterPoll(limit, s, e);
      assert Run(limit, s, events) == Run(limit, t, events[1..]);
      if PacketsOf(d) != [] {
        FirstPackets(limit, s.(delivered := s.delivered + d.packets), d.packets, d.handle && d.opens);
        if t.fileOpen { OpenRunFailsNoWrite(limit, t, events[1..]); }
      } else if Quiet(e) {
        WriteFailsWhenOpenFails(limit, t, events[1..]);
      }
    }
  }

  /** A run fails to write a packet exactly when its script lets the first admitted packet find no file. */
  lemma WriteFailsExactly(limit: nat, events: seq<Event>)
    ensures Run(limit, INITIAL, events).writeFailed <==> OpenFails(limit, events)
  {
    WriteFailsWhenOpenFails(limit, INITIAL, events);
  }

  /** A failed packet write ends the run with no file and exit code 0, whatever else happens. */
  lemma WriteFailureExitsZero(limit: nat, events: seq<Event>, flushes: bool)
    requires OpenFails(limit, events)
    ensures ExitCode(Run(limit, INITIAL, events), flushes) == Some(0)
    ensures Run(limit, INITIAL, events).file == []
  {
    hide Run, Bytes, NoWrap;
    EndInv(limit, events);
    WriteFailsExactly(limit, events);
  }

  /** One packet, no disk: the file cannot be opened, nothing is captured, and the exit code is 0. */
  lemma WriteFailureExample()
    ensures var events := [Event(Burst([[7]], true, false, true, true), false, PollOk, false)];
      var end := Run(0, INITIAL, events);
      end.writeFailed && end.delivered == [[7]] && end.file == [] && ExitCode(end, true) == Some(0)
  {
    var burst := Burst([[7]], true, false, true, true);
    var e := Event(burst, false, PollOk, false);
    var events := [e];
    assert PacketsOf(events[0].delivery) == [[7]] && OpenFails(0, events);
    WriteFailureExitsZero(0, events, true);
    WriteFailsExactly(0, events);
    DeliveryIsAppended(0, INITIAL, e);
    assert events[1..] == [] && Run(0, INITIAL, events) == AfterPoll(0, INITIAL, e);
  }

  lemma DeliveryIsAppended(limit: nat, s: RunState, e: Event)
    requires Fresh(s)
    ensures AfterPoll(limit, s, e).delivered == PacketsOf(e.delivery)
  {
    hide Inv, AfterPoll;
    FreshInv(limit, s);
    PollKeeps(limit, s, e);
    assert s.delivered + PacketsOf(e.delivery) == PacketsOf(e.delivery);
  }

  // ----- runs one after the other -----

  lemma {:induction false} RunConcat(limit: nat, s: RunState, a: seq<Event>, b: seq<Event>)
    ensures Run(limit, s, a + b) == Run(limit, Run(limit, s, a), b)
    decreases |a|
  {
    if a == [] {
      assert a + b == b;
    } else if !Over(s) {
      assert (a + b)[1..] == a[1..] + b;
      RunConcat(limit, AfterPoll(limit, s, a[0]), a[1..], b);
    }
  }

  // ----- the exit code -----

  /** A run that is over exits with 0 exactly when no poll failed and the final flush had nothing to do or succeeded. */
  lemma ExitCodeExact(limit: nat, events: seq<Event>, flushes: bool)
    ensures var end := Run(limit, INITIAL, events);
      ExitCode(end, flushes) ==
        if end.pollFailed then Some(1)
        else if end.running then None
        else if end.file == [] || flushes then Some(0) else Some(1)
  {
    hide Run, Bytes, NoWrap;
    EndInv(limit, events);
  }

  /** A poll that fails while the capture is running ends it with exit code 1, whatever was captured. */
  lemma FailedPollExitsOne(limit: nat, before: seq<Event>, e: Event, after: seq<Event>, flushes: bool)
    requires var s := Run(limit, INITIAL, before);
      !Over(s) && AfterDelivery(limit, s, e.delivery).running && !e.signalInPoll && e.result == PollFailed
    ensures ExitCode(Run(limit, INITIAL, before + [e] + after), flushes) == Some(1)
  {
    var s := Run(limit, INITIAL, before);
    hide AfterDelivery;
    var t := AfterPoll(limit, s, e);
    RunConcat(limit, INITIAL, before + [e], after);
    RunConcat(limit, INITIAL, before, [e]);
    assert [e][1..] == [] && Run(limit, s, [e]) == t && Run(limit, t, after) == t;
  }

  /** In particular the very first poll, in every mode. */
  lemma FirstPollExitsOne(limit: nat, signal: bool, after: seq<Event>, flushes: bool)
    ensures ExitCode(Run(limit, INITIAL, [Event(NoCallback, false, PollFailed, signal)] + after), flushes) == Some(1)
  {
    var e := Event(NoCallback, false, PollFailed, signal);
    assert [] + [e] + after == [e] + after;
    FailedPollExitsOne(limit, [], e, after, flushes);
  }

  // ----- the longest fit -----

  /** Counting on from `bytes`, a packet of the burst reaches the limit exactly and an empty one follows. */
  predicate BurstEndsOnEmpty(limit: nat, bytes: nat, packets: seq<Packet>)
    decreases |packets|
  {
    packets != [] &&
    var total := bytes + |packets[0]|;
    if total == limit then |packets| > 1 && packets[1] == []
    else total < limit && BurstEndsOnEmpty(limit, total, packets[1..])
  }

  /** What is unflushed after an event that leaves the capture below its limit; none when flushing fails. */
  function UnflushedAfter(unflushed: nat, d: Delivery): Option<nat> {
    var now := unflushed + Bytes(PacketsOf(d));
    if now < FLUSH_INTERVAL then Some(now) else if d.Burst? && d.flushes then Some(0) else None
  }

  /** The run reaches its limit exactly, and the next packet of that burst is empty. */
  predicate EndsOnEmpty(limit: nat, bytes: nat, unflushed: nat, events: seq<Event>)
    decreases |events|
  {
    limit > 0 && events != [] &&
    var packets, after := PacketsOf(events[0].delivery), UnflushedAfter(unflushed, events[0].delivery);
    if bytes + Bytes(packets) < limit then
      Quiet(events[0]) && after.Some? && EndsOnEmpty(limit, bytes + Bytes(packets), after.value, events[1..])
    else BurstEndsOnEmpty(limit, bytes, packets)
  }

  /** How a burst ends, read off its packets. */
  lemma {:induction false} BurstEnding(limit: nat, s: RunState, rest: seq<Packet>, canOpen: bool)
    requires Capturing(limit, s, rest) && NoWrap(limit, s.delivered) && limit > 0
    ensures var (t, ending) := AfterPackets(limit, s, rest, canOpen);
      ending != Failed ==>
        && (EmptyNext(limit, t.delivered, t.file) <==> BurstEndsOnEmpty(limit, s.bytes, rest))
        && (ending == More <==> s.bytes + Bytes(rest) < limit)
        && (ending == More ==> t.unflushed == s.unflushed + Bytes(rest) && t.bytes == s.bytes + Bytes(rest))
    decreases |rest|
  {
    hide Bytes, NoWrap, Capturing, AfterPacket, EmptyNext;
    if rest == [] {
      NothingLeft(limit, s);
    } else {
      BytesFromFront(rest);
      PacketKeeps(limit, s, rest, canOpen);
      var (t, ending) := AfterPacket(limit, s, rest[0], canOpen);
      if ending == More {
        MoreEnding(limit, s, rest, canOpen);
        BurstEnding(limit, t, rest[1..], canOpen);
      } else if ending == Stop {
        StopEnding(limit, s, rest, canOpen);
      }
    }
  }

  lemma NothingLeft(limit: nat, s: RunState)
    requires Capturing(limit, s, []) && NoWrap(limit, s.delivered) && limit > 0
    ensures !EmptyNext(limit, s.delivered, s.file) && s.bytes < limit && Bytes([]) == 0
  {
    assert s.file == s.delivered;
  }

  /** The packet leaves the burst below the limit. */
  lemma MoreEnding(limit: nat, s: RunState, rest: seq<Packet>, canOpen: bool)
    requires rest != [] && Capturing(limit, s, rest) && NoWrap(limit, s.delivered) && limit > 0
    requires AfterPacket(limit, s, rest[0], canOpen).1 == More
    ensures var t := AfterPacket(limit, s, rest[0], canOpen).0;
      t.bytes == s.bytes + |rest[0]| < limit && t.unflushed == s.unflushed + |rest[0]|
  {
    hide Bytes, NoWrap;
    OneMorePacket(limit, s, rest);
  }

  lemma BytesFromFront(packets: seq<Packet>)
    requires packets != []
    ensures Bytes(packets) == |packets[0]| + Bytes(packets[1..])
  {
    assert packets == [packets[0]] + packets[1..];
    BytesConcat([packets[0]], packets[1..]);
    assert [] + [packets[0]] == [packets[0]];
    BytesAppend([], packets[0]);
  }

  /** The packet that ends the burst exceeds the limit or reaches it. */
  lemma StopEnding(limit: nat, s: RunState, rest: seq<Packet>, canOpen: bool)
    requires rest != [] && Capturing(limit, s, rest) && NoWrap(limit, s.delivered) && limit > 0
    requires AfterPacket(limit, s, rest[0], canOpen).1 == Stop
    ensures var t := AfterPacket(limit, s, rest[0], canOpen).0;
      && s.bytes + |rest[0]| >= limit
      && (EmptyNext(limit, t.delivered, t.file) <==> BurstEndsOnEmpty(limit, s.bytes, rest))
  {
    hide Bytes, NoWrap;
    OneMorePacket(limit, s, rest);
    var n := |s.file|;
    if Admits(limit, s.bytes, |rest[0]|) {
      assert |rest| > 1 ==> s.delivered[n + 1] == rest[1];
    } else {
      assert s.delivered[n] == rest[0];
    }
  }

  /** A delivery that leaves the capture below its limit: only a failing flush ends it. */
  lemma DeliveryBelowLimit(limit: nat, s: RunState, d: Delivery)
    requires Inv(limit, s) && s.running && limit > 0 && NoWrap(limit, s.delivered + PacketsOf(d))
    requires !AfterDelivery(limit, s, d).writeFailed && s.bytes + Bytes(PacketsOf(d)) < limit
    ensures var t, after := AfterDelivery(limit, s, d), UnflushedAfter(s.unflushed, d);
      && (t.running <==> after.Some?) && t.file == t.delivered
      && (t.running ==> t.bytes == s.bytes + Bytes(PacketsOf(d)) && t.unflushed == after.value)
  {
    hide Bytes, NoWrap, AfterPackets, CutOff, Fits, Exact;
    NoBytes();
    if d.Burst? {
      var begun := s.(delivered := s.delivered + d.packets);
      BurstBegins(limit, s, d.packets);
      PacketsKeep(limit, begun, d.packets, d.handle && d.opens);
      BurstEnding(limit, begun, d.packets, d.handle && d.opens);
      var t := AfterPackets(limit, begun, d.packets, d.handle && d.opens).0;
      assert t.file + [] == t.file;
    } else {
      assert s.file + [] == s.file;
    }
  }

  /** One event that leaves the capture below its limit. */
  lemma EventBelowLimit(limit: nat, s: RunState, e: Event)
    requires Inv(limit, s) && !Over(s) && limit > 0 && NoWrap(limit, s.delivered + PacketsOf(e.delivery))
    requires !AfterPoll(limit, s, e).writeFailed && s.bytes + Bytes(PacketsOf(e.delivery)) < limit
    ensures var t, after := AfterPoll(limit, s, e), UnflushedAfter(s.unflushed, e.delivery);
      && (Over(t) <==> !Quiet(e) || after.None?)
      && !EmptyNext(limit, t.delivered, t.file)
      && (!Over(t) ==> t.bytes == s.bytes + Bytes(PacketsOf(e.delivery)) && t.unflushed == after.value)
  {
    hide Bytes, NoWrap, AfterDelivery, Inv, UnflushedAfter;
    DeliveryIsNoPollError(limit, s, e.delivery);
    DeliveryBelowLimit(limit, s, e.delivery);
  }

  lemma NoBytes()
    ensures Bytes([]) == 0
  {
  }

  /** One event that reaches the limit or exceeds it. */
  lemma EventAtLimit(limit: nat, s: RunState, e: Event)
    requires Inv(limit, s) && !Over(s) && limit > 0 && NoWrap(limit, s.delivered + PacketsOf(e.delivery))
    requires !AfterPoll(limit, s, e).writeFailed && s.bytes + Bytes(PacketsOf(e.delivery)) >= limit
    ensures var t := AfterPoll(limit, s, e);
      && Over(t)
      && (EmptyNext(limit, t.delivered, t.file) <==> BurstEndsOnEmpty(limit, s.bytes, PacketsOf(e.delivery)))
  {
    hide Bytes, NoWrap, AfterPackets, BurstEndsOnEmpty, CutOff, Fits;
    NoBytes();
    NoWrapBefore(limit, s.delivered, PacketsOf(e.delivery));
    var d := e.delivery;
    if d.Burst? {
      var begun := s.(delivered := s.delivered + d.packets);
      BurstBegins(limit, s, d.packets);
      PacketsKeep(limit, begun, d.packets, d.handle && d.opens);
      BurstEnding(limit, begun, d.packets, d.handle && d.opens);
    }
  }

  lemma {:induction false} RunEnding(limit: nat, s: RunState, events: seq<Event>)
    requires Inv(limit, s) && !Over(s) && limit > 0 && NoWrap(limit, s.delivered + AllPackets(events))
    requires !Run(limit, s, events).writeFailed
    ensures var end := Run(limit, s, events);
      EmptyNext(limit, end.delivered, end.file) <==> EndsOnEmpty(limit, s.bytes, s.unflushed, events)
    decreases |events|
  {
    hide Bytes, NoWrap, AfterPoll, BurstEndsOnEmpty, UnflushedAfter, Quiet;
    if events == [] {
      assert s.file + [] == s.file;
    } else {
      hide Inv;
      var e, later := events[0], events[1..];
      var now := s.delivered + PacketsOf(e.delivery);
      assert s.delivered + AllPackets(events) == now + AllPackets(later);
      NoWrapBefore(limit, now, AllPackets(later));
      PollKeeps(limit, s, e);
      var t := AfterPoll(limit, s, e);
      FailedWritesStay(limit, t, later);
      if s.bytes + Bytes(PacketsOf(e.delivery)) < limit {
        EventBelowLimit(limit, s, e);
        if !Over(t) { RunEnding(limit, t, later); }
      } else {
        EventAtLimit(limit, s, e);
      }
    }
  }

  lemma FailedWritesStay(limit: nat, s: RunState, events: seq<Event>)
    requires Inv(limit, s)
    ensures s.writeFailed ==> Run(limit, s, events).writeFailed
  {
  }

  /**
    The file is the longest prefix of the delivered packets within the limit exactly when the file
    could be opened for the first admitted packet and the limit was not reached right before an
    empty packet. Both can be read off the script.
  */
  lemma FileIsLongestFit(limit: nat, events: seq<Event>)
    requires limit == 0 || NoWrap(limit, AllPackets(events))
    ensures var end := Run(limit, INITIAL, events);
      && (IsLongestFit(limit, end.delivered, end.file) <==>
            !OpenFails(limit, events) && !EndsOnEmpty(limit, 0, 0, events))
      && (limit == 0 && !OpenFails(limit, events) ==> end.file == end.delivered)
  {
    hide Run, Bytes, NoWrap, EndsOnEmpty, OpenFails;
    EndInv(limit, events);
    WriteFailsExactly(limit, events);
    var end := Run(limit, INITIAL, events);
    if end.writeFailed {
      assert end.delivered[..|end.file| + 1] == end.delivered[..1];
    } else if limit == 0 {
      NoLimitNoEnd(events);
    } else {
      EndNoWrap(limit, events);
      CutOffIsLongest(limit, end.delivered, end.file);
      FreshInv(limit, INITIAL);
      assert INITIAL.delivered + AllPackets(events) == AllPackets(events);
      RunEnding(limit, INITIAL, events);
    }
  }

  lemma NoLimitNoEnd(events: seq<Event>)
    ensures !EndsOnEmpty(0, 0, 0, events)
  {
  }

  /** Every packet holds at least one byte. */
  ghost predicate NoEmptyPackets(packets: seq<Packet>) { forall i :: 0 <= i < |packets| ==> |packets[i]| > 0 }

  lemma {:induction false} BurstWithoutEmpty(limit: nat, bytes: nat, packets: seq<Packet>)
    requires NoEmptyPackets(packets)
    ensures !BurstEndsOnEmpty(limit, bytes, packets)
    decreases |packets|
  {
    if packets != [] { BurstWithoutEmpty(limit, bytes + |packets[0]|, packets[1..]); }
  }

  lemma BothWithoutEmpty(a: seq<Packet>, b: seq<Packet>)
    requires NoEmptyPackets(a + b)
    ensures NoEmptyPackets(a) && NoEmptyPackets(b)
  {
    assert forall i :: 0 <= i < |a| ==> a[i] == (a + b)[i];
    assert forall i :: 0 <= i < |b| ==> b[i] == (a + b)[|a| + i];
  }

  lemma {:induction false} ScriptWithoutEmpty(limit: nat, bytes: nat, unflushed: nat, events: seq<Event>)
    requires NoEmptyPackets(AllPackets(events))
    ensures !EndsOnEmpty(limit, bytes, unflushed, events)
    decreases |events|
  {
    hide Bytes, BurstEndsOnEmpty, UnflushedAfter, NoEmptyPackets;
    if limit > 0 && events != [] {
      var packets, later := PacketsOf(events[0].delivery), AllPackets(events[1..]);
      BothWithoutEmpty(packets, later);
      BurstWithoutEmpty(limit, bytes, packets);
      var after := UnflushedAfter(unflushed, events[0].delivery);
      if after.Some? { ScriptWithoutEmpty(limit, bytes + Bytes(packets), after.value, events[1..]); }
    }
  }

  /** With packets of positive length only a file that cannot be opened keeps the file from the longest fit. */
  lemma PositiveLengthsLongestFit(limit: nat, events: seq<Event>)
    requires limit == 0 || NoWrap(limit, AllPackets(events))
    requires NoEmptyPackets(AllPackets(events))
    ensures var end := Run(limit, INITIAL, events);
      IsLongestFit(limit, end.delivered, end.file) <==> !OpenFails(limit, events)
  {
    FileIsLongestFit(limit, events);
    ScriptWithoutEmpty(limit, 0, 0, events);
  }

  /** Limit 1, one burst of a one-byte and an empty packet, no failure: the empty packet is dropped. */
  lemma EmptyPacketExample()
    ensures var events := [Event(Burst([[7], []], true, true, true, true), false, PollOk, false)];
      var end := Run(1, INITIAL, events);
      !end.writeFailed && end.delivered == [[7], []] && !IsLongestFit(1, end.delivered, end.file)
  {
    var packets: seq<Packet> := [[7], []];
    var e := Event(Burst(packets, true, true, true, true), false, PollOk, false);
    var events := [e];
    assert PacketsOf(events[0].delivery) == packets && events[1..] == [];
    BytesFromFront(packets);
    assert Bytes(packets) >= 1 && BurstEndsOnEmpty(1, 0, packets);
    assert EndsOnEmpty(1, 0, 0, events) && !OpenFails(1, events);
    FileIsLongestFit(1, events);
    WriteFailsExactly(1, events);
    DeliveryIsAppended(1, INITIAL, e);
    assert Run(1, INITIAL, events) == AfterPoll(1, INITIAL, e);
  }

  // ----- where a signal falls -----

  lemma {:induction false} SignalBeforePackets(limit: nat, s: RunState, packets: seq<Packet>, canOpen: bool)
    ensures var (t, ending) := AfterPackets(limit, s, packets, canOpen);
      AfterPackets(limit, s.(running := false), packets, canOpen) == (t.(running := false), ending)
    decreases |packets|
  {
    if packets != [] {
      var (t, ending) := AfterPacket(limit, s, packets[0], canOpen);
      if ending == More { SignalBeforePackets(limit, t, packets[1..], canOpen); }
    }
  }

  lemma SignalBeforeFlush(s: RunState, flushes: bool)
    ensures AfterFlush(s.(running := false), flushes) == AfterFlush(s, flushes).(running := false)
  {
  }

  lemma SignalBeforeBurst(limit: nat, s: RunState, packets: seq<Packet>, canOpen: bool, flushes: bool)
    ensures AfterBurst(limit, s.(running := false), packets, canOpen, flushes)
         == AfterBurst(limit, s, packets, canOpen, flushes).(running := false)
  {
    hide AfterPackets, AfterFlush;
    SignalBeforePackets(limit, s, packets, canOpen);
    SignalBeforeFlush(AfterPackets(limit, s, packets, canOpen).0, flushes);
  }

  lemma {:induction false} PacketsConcat(limit: nat, s: RunState, a: seq<Packet>, b: seq<Packet>, canOpen: bool)
    ensures AfterPackets(limit, s, a + b, canOpen) ==
      var (t, ending) := AfterPackets(limit, s, a, canOpen);
      if ending == More then AfterPackets(limit, t, b, canOpen) else (t, ending)
    decreases |a|
  {
    hide AfterPacket;
    if a == [] {
      assert a + b == b;
    } else {
      assert (a + b)[1..] == a[1..] + b;
      var (t, ending) := AfterPacket(limit, s, a[0], canOpen);
      if ending == More { PacketsConcat(limit, t, a[1..], b, canOpen); }
    }
  }

  /** The callback when a signal comes after `k` packets of the burst; none when the loop is left before that. */
  function SignalledAt(limit: nat, s: RunState, d: Delivery, k: nat): Option<RunState>
    requires d.Burst? && k <= |d.packets|
  {
    var begun := s.(delivered := s.delivered + d.packets);
    var (t, ending) := AfterPackets(limit, begun, d.packets[..k], d.handle && d.opens);
    if ending != More then None
    else Some(AfterBurst(limit, t.(running := false), d.packets[k..], d.handle && d.opens, d.flushes))
  }

  lemma SignalWithinBurst(limit: nat, s: RunState, d: Delivery, k: nat)
    requires d.Burst? && k <= |d.packets| && SignalledAt(limit, s, d, k).Some?
    ensures SignalledAt(limit, s, d, k).value == AfterDelivery(limit, s, d).(running := false)
  {
    hide AfterPackets, AfterFlush;
    var begun, canOpen := s.(delivered := s.delivered + d.packets), d.handle && d.opens;
    assert d.packets == d.packets[..k] + d.packets[k..];
    PacketsConcat(limit, begun, d.packets[..k], d.packets[k..], canOpen);
    SignalBeforeBurst(limit, AfterPackets(limit, begun, d.packets[..k], canOpen).0, d.packets[k..], canOpen, d.flushes);
  }

  /** A signal before the callback of a poll, between any two packets, or behind it leads to the same state. */
  lemma SignalPlaceIrrelevant(limit: nat, s: RunState, d: Delivery)
    ensures var t := AfterDelivery(limit, s, d).(running := false);
      && AfterDelivery(limit, s.(running := false), d) == t
      && (d.Burst? ==> forall k :: 0 <= k <= |d.packets| && SignalledAt(limit, s, d, k).Some? ==>
            SignalledAt(limit, s, d, k).value == t)
  {
    hide AfterBurst, SignalledAt;
    if d.Burst? {
      var begun := s.(delivered := s.delivered + d.packets);
      SignalBeforeBurst(limit, begun, d.packets, d.handle && d.opens, d.flushes);
      forall k | 0 <= k <= |d.packets| && SignalledAt(limit, s, d, k).Some?
        ensures SignalledAt(limit, s, d, k).value == AfterDelivery(limit, s, d).(running := false)
      {
        SignalWithinBurst(limit, s, d, k);
      }
    }
  }

  /** More events only append to the file. */
  lemma FileGrows(limit: nat, a: seq<Event>, b: seq<Event>)
    ensures Run(limit, INITIAL, a).file <= Run(limit, INITIAL, a + b).file
  {
    hide Inv, Run;
    EndInv(limit, a);
    RunConcat(limit, INITIAL, a, b);
    RunKeeps(limit, Run(limit, INITIAL, a), b);
  }
}
