/**
  beastie/commands/capture_cmd.c: the capture callbacks and the poll loop, driven
  by a script of poll events. `Run` gives the meaning of a script; the methods of
  `CaptureState` are the C functions.
*/
module Capture {
  import opened PcapWriter
  import opened Sums

  const U64: nat := 0x1_0000_0000_0000_0000
  const FLUSH_INTERVAL: nat := 0x10_0000
  const MAX_MEMIF_BUFS: nat := 256

  /** 64-bit addition. */
  function Add64(a: nat, b: nat): nat { (a + b) % U64 }

  // ----- what the environment does -----

  /** What one receive call can return (line 114). */
  type Received = packets: seq<Packet> | |packets| <= MAX_MEMIF_BUFS witness []

  /** What one poll hands to `on_interrupt`, and whether the calls made there succeed. */
  datatype Delivery =
    | NoCallback
    | RxFailed
    | Burst(packets: Received, handle: bool, opens: bool, flushes: bool, refills: bool)

  datatype PollResult = PollOk | PollCancelled | PollFailed

  /** One turn of the poll loop. A signal comes during the poll, or after the test behind it, or not at all. */
  datatype Event = Event(delivery: Delivery, signalInPoll: bool, result: PollResult, signalAfter: bool)

  // ----- meaning of a run -----

  /** The capture state, the output file and the history of the run. */
  datatype RunState = RunState(
    running: bool, packets: nat, bytes: nat, unflushed: nat,
    fileOpen: bool, file: seq<Packet>, creations: nat, flushed: nat,
    delivered: seq<Packet>, writeFailed: bool, pollFailed: bool
  )

  const INITIAL: RunState := RunState(true, 0, 0, 0, false, [], 0, 0, [], false, false)

  /** The test of lines 122-123. */
  predicate Admits(limit: nat, bytes: nat, len: nat) { limit == 0 || Add64(bytes, len) <= limit }

  /** The test of lines 138-139. */
  predicate Full(limit: nat, bytes: nat) { limit > 0 && bytes >= limit }

  function Recorded(s: RunState, packet: Packet): RunState {
    s.(packets := Add64(s.packets, 1), bytes := Add64(s.bytes, |packet|), unflushed := Add64(s.unflushed, |packet|),
       fileOpen := true, file := s.file + [packet], creations := if s.fileOpen then s.creations else s.creations + 1)
  }

  /** How the loop over a burst goes on after a packet. */
  datatype Ending = More | Stop | Failed

  function AfterPacket(limit: nat, s: RunState, packet: Packet, canOpen: bool): (RunState, Ending) {
    if !Admits(limit, s.bytes, |packet|) then (s.(running := false), Stop)
    else if !s.fileOpen && !canOpen then (s.(running := false, writeFailed := true), Failed)
    else
      var t := Recorded(s, packet);
      if Full(limit, t.bytes) then (t.(running := false), Stop) else (t, More)
  }

  /** The packets of a burst one after the other, whether or not a signal has come. */
  function AfterPackets(limit: nat, s: RunState, packets: seq<Packet>, canOpen: bool): (RunState, Ending)
    decreases |packets|
  {
    if packets == [] then (s, More)
    else
      var (t, ending) := AfterPacket(limit, s, packets[0], canOpen);
      if ending == More then AfterPackets(limit, t, packets[1..], canOpen) else (t, ending)
  }

  function AfterFlush(s: RunState, flushes: bool): RunState {
    if s.unflushed < FLUSH_INTERVAL then s
    else if s.fileOpen && !flushes then s.(running := false)
    else s.(unflushed := 0, flushed := if s.fileOpen then Bytes(s.file) else s.flushed)
  }

  /** A failed write leaves the callback before the flush. */
  function AfterBurst(limit: nat, s: RunState, packets: seq<Packet>, canOpen: bool, flushes: bool): RunState {
    var (t, ending) := AfterPackets(limit, s, packets, canOpen);
    if ending == Failed then t else AfterFlush(t, flushes)
  }

  function AfterDelivery(limit: nat, s: RunState, d: Delivery): RunState {
    match d
    case NoCallback => s
    case RxFailed => s
    case Burst(packets, handle, opens, flushes, _) =>
      AfterBurst(limit, s.(delivered := s.delivered + packets), packets, handle && opens, flushes)
  }

  lemma {:induction false} PacketsAreNoPollError(limit: nat, s: RunState, packets: seq<Packet>, canOpen: bool)
    ensures AfterPackets(limit, s, packets, canOpen).0.pollFailed == s.pollFailed
    decreases |packets|
  {
    if packets != [] {
      var (t, ending) := AfterPacket(limit, s, packets[0], canOpen);
      PacketsAreNoPollError(limit, t, packets[1..], canOpen);
    }
  }

  lemma DeliveryIsNoPollError(limit: nat, s: RunState, d: Delivery)
    ensures AfterDelivery(limit, s, d).pollFailed == s.pollFailed
  {
    if d.Burst? {
      PacketsAreNoPollError(limit, s.(delivered := s.delivered + d.packets), d.packets, d.handle && d.opens);
    }
  }

  /** One turn of the loop of lines 238-247. */
  function AfterPoll(limit: nat, s: RunState, e: Event): RunState {
    var t := AfterDelivery(limit, s, e.delivery);
    var u := if e.signalInPoll then t.(running := false) else t;
    if !u.running then u
    else if e.result == PollFailed then u.(pollFailed := true)
    else if e.signalAfter then u.(running := false)
    else u
  }

  predicate Over(s: RunState) { !s.running || s.pollFailed }

  function Run(limit: nat, s: RunState, events: seq<Event>): RunState
    decreases |events|
  {
    if events == [] || Over(s) then s else Run(limit, AfterPoll(limit, s, events[0]), events[1..])
  }

  /** The exit code of a run whose final flush succeeds or not; none while it waits for packets. */
  function ExitCode(end: RunState, flushes: bool): Option<int> {
    if !Over(end) then None else if end.pollFailed || (end.fileOpen && !flushes) then Some(1) else Some(0)
  }

  // ----- the C functions -----

  class CaptureState {
    const limit: nat
    const writer: Writer
    var keepRunning: bool
    var packetsCaptured: nat
    var bytesCaptured: nat
    var bytesSinceLastFlush: nat
    ghost var delivered: seq<Packet>
    ghost var writeFailed: bool
    ghost var pollFailed: bool

    ghost function Snapshot(): RunState
      reads this, writer
    {
      RunState(keepRunning, packetsCaptured, bytesCaptured, bytesSinceLastFlush,
            writer.initialized, writer.Records(), writer.creations, writer.flushedBytes,
            delivered, writeFailed, pollFailed)
    }

    /** A file exists only while the writer is open. */
    ghost predicate Valid()
      reads this, writer
    {
      writer.Valid() && (writer.initialized <==> writer.file.Some?)
    }

    /** Lines 170-186. */
    constructor (limit: nat, writer: Writer)
      requires writer.Valid() && !writer.initialized && writer.file.None?
      requires writer.creations == 0 && writer.flushedBytes == 0
      ensures this.limit == limit && this.writer == writer && Valid() && Snapshot() == INITIAL
    {
      this.limit, this.writer := limit, writer;
      keepRunning, packetsCaptured, bytesCaptured, bytesSinceLastFlush := true, 0, 0, 0;
      delivered, writeFailed, pollFailed := [], false, false;
    }

    /** Lines 75-81. */
    method HandleSignal()
      requires Valid()
      modifies this`keepRunning
      ensures Valid() && Snapshot() == old(Snapshot()).(running := false)
    {
      keepRunning := false;
    }

    /** Lines 122-142: one packet. */
    method CapturePacket(packet: Packet, handle: bool, opens: bool) returns (ending: Ending)
      requires Valid()
      modifies this, writer
      ensures Valid() && (Snapshot(), ending) == AfterPacket(limit, old(Snapshot()), packet, handle && opens)
    {
      if limit > 0 && Add64(bytesCaptured, |packet|) > limit {
        keepRunning := false;
        return Stop;
      }
      var rc := writer.WritePacket(packet, handle, opens);
      if rc != 0 {
        keepRunning := false;
        writeFailed := true;
        return Failed;
      }
      packetsCaptured := Add64(packetsCaptured, 1);
      bytesCaptured := Add64(bytesCaptured, |packet|);
      bytesSinceLastFlush := Add64(bytesSinceLastFlush, |packet|);
      if limit > 0 && bytesCaptured >= limit {
        keepRunning := false;
        return Stop;
      }
      ending := More;
    }

    /** Lines 121-143: one burst. */
    method CapturePackets(packets: seq<Packet>, handle: bool, opens: bool) returns (ending: Ending)
      requires Valid()
      modifies this, writer
      ensures Valid() && (Snapshot(), ending) == AfterPackets(limit, old(Snapshot()), packets, handle && opens)
    {
      hide AfterPacket, Valid, Writer.Valid, Writer.Records;
      ghost var goal := AfterPackets(limit, Snapshot(), packets, handle && opens);
      assert packets[0..] == packets;
      ending := More;
      var i := 0;
      while i < |packets| && ending == More
        invariant i <= |packets| && Valid()
        invariant goal ==
          if ending == More then AfterPackets(limit, Snapshot(), packets[i..], handle && opens)
          else (Snapshot(), ending)
      {
        assert packets[i..][1..] == packets[i + 1..];
        ending := CapturePacket(packets[i], handle, opens);
        i := i + 1;
      }
    }

    /** Lines 149-157. */
    method FlushIfDue(flushes: bool) returns (rc: int)
      requires Valid()
      modifies this, writer
      ensures Valid() && Snapshot() == AfterFlush(old(Snapshot()), flushes)
      ensures rc == 0 <==> old(bytesSinceLastFlush) < 0x10_0000 || !old(writer.initialized) || flushes
      ensures rc == 0 ==> keepRunning == old(keepRunning)
      ensures rc != 0 ==> !keepRunning && bytesSinceLastFlush == old(bytesSinceLastFlush)
      ensures rc == 0 ==>
        bytesSinceLastFlush == if old(bytesSinceLastFlush) < 0x10_0000 then old(bytesSinceLastFlush) else 0
      ensures old(bytesSinceLastFlush) < 0x10_0000 || rc != 0 ==> writer.flushedBytes == old(writer.flushedBytes)
    {
      rc := 0;
      if bytesSinceLastFlush >= FLUSH_INTERVAL {
        var flushed := writer.Flush(flushes);
        if flushed != 0 {
          keepRunning := false;
          return -1;
        }
        bytesSinceLastFlush := 0;
      }
    }

    /** Lines 108-168. The result is zero when receiving, writing, flushing and refilling all went well. */
    method OnInterrupt(d: Delivery) returns (rc: int)
      requires Valid() && d != NoCallback
      modifies this, writer
      ensures Valid() && Snapshot() == AfterDelivery(limit, old(Snapshot()), d)
      ensures rc == 0 <==>
        && d.Burst? && (d.packets == [] || d.refills) && bytesSinceLastFlush < FLUSH_INTERVAL
        && AfterPackets(limit, old(Snapshot()).(delivered := old(delivered) + d.packets), d.packets,
                        d.handle && d.opens).1 != Failed
    {
      hide AfterPackets, AfterFlush;
      if d.RxFailed? {
        return 1;
      }
      delivered := delivered + d.packets;
      var ending := CapturePackets(d.packets, d.handle, d.opens);
      if ending == Failed {
        return -1;
      }
      rc := FlushIfDue(d.flushes);
      if rc != 0 {
        return;
      }
      if |d.packets| > 0 && !d.refills {
        return 1;
      }
      rc := 0;
    }

    /**
      Lines 238-247, on the events the script holds. The loop is left with `keepRunning` off, on a
      poll error, or when the script ends while the program waits for more.
    */
    method PollLoop(events: seq<Event>) returns (failed: bool)
      requires Valid() && !pollFailed
      modifies this, writer
      ensures Valid() && Snapshot() == Run(limit, old(Snapshot()), events) && failed == pollFailed
    {
      hide Valid, AfterPoll, Writer.Valid, Writer.Records;
      failed := false;
      ghost var goal := Run(limit, Snapshot(), events);
      assert events[0..] == events;
      var i := 0;
      while keepRunning && !failed && i < |events|
        invariant i <= |events| && Valid() && failed == pollFailed
        invariant Run(limit, Snapshot(), events[i..]) == goal
      {
        assert events[i..][1..] == events[i + 1..];
        failed := Turn(events[i]);
        i := i + 1;
      }
    }

    /** Lines 239-246: one turn of the loop; `failed` means leaving through the error exit. */
    method Turn(e: Event) returns (failed: bool)
      requires Valid() && !pollFailed
      modifies this, writer
      ensures Valid() && Snapshot() == AfterPoll(limit, old(Snapshot()), e) && failed == pollFailed
      ensures failed <==> keepRunning && e.result == PollFailed
      ensures keepRunning <==>
        && AfterDelivery(limit, old(Snapshot()), e.delivery).running && !e.signalInPoll
        && (e.signalAfter ==> e.result == PollFailed)
    {
      DeliveryIsNoPollError(limit, Snapshot(), e.delivery);
      failed := false;
      if e.delivery != NoCallback {
        var _ := OnInterrupt(e.delivery);
      }
      if e.signalInPoll {
        HandleSignal();
      }
      if !keepRunning {
        return;
      }
      if e.result == PollFailed {
        pollFailed := true;
        return true;
      }
      if e.signalAfter {
        HandleSignal();
      }
    }

    /**
      Lines 198-266. `connected` says whether the memif socket and connection could be created.
      The result is `None` while the program is still waiting for packets.
    */
    method RunCapture(connected: bool, events: seq<Event>, flushes: bool, closeFlushes: bool) returns (rc: Option<int>)
      requires Valid() && Snapshot() == INITIAL
      modifies this, writer
      ensures !connected ==> rc == Some(1) && writer.file.None? && writer.creations == 0
      ensures connected ==>
        var end := Run(limit, INITIAL, events);
        && writer.creations == end.creations && writer.Records() == end.file
        && bytesCaptured == end.bytes && packetsCaptured == end.packets
        && rc == ExitCode(end, flushes)
        && (rc.None? <==> end.running && !end.pollFailed)
        && (rc.Some? ==>
              rc == Some(if !end.pollFailed && (end.fileOpen ==> flushes) then 0 else 1))
        && (rc == Some(0) && end.fileOpen ==> writer.flushedBytes == Bytes(end.file))
      ensures rc.Some? ==> !writer.initialized
    {
      if !connected {
        writer.Close(closeFlushes);
        return Some(1);
      }
      var failed := PollLoop(events);
      if keepRunning && !failed {
        return None;
      }
      if failed {
        writer.Close(closeFlushes);
        return Some(1);
      }
      rc := Some(0);
      var flushed := writer.Flush(flushes);
      if flushed != 0 {
        rc := Some(1);
      }
      writer.Close(closeFlushes);
    }
  }
}
