/** For which limits a capture run of beastie/commands/capture_cmd.c keeps its byte limit. */
module CaptureLimit {
  import opened Capture
  import opened CaptureTheorems
  import opened PcapWriter
  import opened Sums

  const LARGEST_PACKET: nat := 0xffff_ffff

  function Zeros(n: nat): (p: Packet)
    requires n <= LARGEST_PACKET
    ensures |p| == n
  {
    seq(n, _ => 0)
  }

  /** Packets that hold `total` bytes together. */
  function Filling(total: nat): (packets: seq<Packet>)
    ensures Bytes(packets) == total
    decreases total
  {
    if total == 0 then []
    else
      var n := Min(total, LARGEST_PACKET);
      var rest := Filling(total - n);
      var packets := [Zeros(n)] + rest;
      assert Bytes(packets) == total by {
        BytesFromFront(packets);
        assert packets[1..] == rest;
      }
      packets
  }

  /** A poll that receives one packet, with every call made for it succeeding. */
  function One(packet: Packet): Event { Event(Burst([packet], true, true, true, true), false, PollOk, false) }

  /** One poll per packet. */
  function Singles(packets: seq<Packet>): (events: seq<Event>)
    ensures |events| == |packets|
  {
    if packets == [] then [] else [One(packets[0])] + Singles(packets[1..])
  }

  lemma BurstOfOne(limit: nat, s: RunState, packet: Packet)
    ensures AfterPackets(limit, s, [packet], true) == AfterPacket(limit, s, packet, true)
  {
    hide AfterPacket;
    assert [packet][1..] == [];
  }

  /** An admitted packet is recorded and counted, and the capture goes on unless the limit is reached. */
  lemma OnePacket(limit: nat, s: RunState, packet: Packet)
    requires !Over(s) && Admits(limit, s.bytes, |packet|)
    ensures var t := AfterPoll(limit, s, One(packet));
      && t.file == s.file + [packet] && t.bytes == Add64(s.bytes, |packet|) && !t.pollFailed
      && (Over(t) <==> Full(limit, t.bytes))
  {
    hide Bytes, Add64, AfterPackets, Full, Admits;
    BurstOfOne(limit, s.(delivered := s.delivered + [packet]), packet);
  }

  /** Below the limit an admitted packet is counted without wrapping. */
  lemma OneBelowLimit(limit: nat, s: RunState, packet: Packet)
    requires !Over(s) && s.bytes + |packet| < limit < 0x1_0000_0000_0000_0000
    ensures var t := AfterPoll(limit, s, One(packet));
      t.file == s.file + [packet] && t.bytes == s.bytes + |packet| && !Over(t)
  {
    hide AfterPoll;
    OnePacket(limit, s, packet);
  }

  lemma RunSingles(limit: nat, s: RunState, packets: seq<Packet>)
    requires !Over(s)
    ensures Run(limit, s, Singles(packets)) ==
      if packets == [] then s else Run(limit, AfterPoll(limit, s, One(packets[0])), Singles(packets[1..]))
  {
    hide AfterPoll, One, Over;
    if packets != [] { assert Singles(packets)[1..] == Singles(packets[1..]); }
  }

  /** Packets that stay below the limit are all recorded. */
  lemma {:induction false} AllRecorded(limit: nat, s: RunState, packets: seq<Packet>)
    requires !Over(s) && s.bytes + Bytes(packets) < limit < 0x1_0000_0000_0000_0000
    ensures var t := Run(limit, s, Singles(packets));
      t.file == s.file + packets && t.bytes == s.bytes + Bytes(packets) && !Over(t)
    decreases |packets|
  {
    hide Bytes, AfterPoll, One, Over, Run, Singles;
    NoBytes();
    RunSingles(limit, s, packets);
    if packets == [] {
      assert s.file + packets == s.file;
    } else {
      BytesFromFront(packets);
      OneBelowLimit(limit, s, packets[0]);
      AllRecorded(limit, AfterPoll(limit, s, One(packets[0])), packets[1..]);
      assert s.file + [packets[0]] + packets[1..] == s.file + packets;
    }
  }

  /** A script that fills the capture up to one byte below the limit and then delivers `last`. */
  function FillThen(limit: nat, last: Packet): seq<Event>
    requires limit > 0
  {
    Singles(Filling(limit - 1)) + [One(last)]
  }

  /** The last packet of such a script is recorded when the test lets it through. */
  lemma FillThenRecords(limit: nat, last: Packet)
    requires 0 < limit < 0x1_0000_0000_0000_0000 && Admits(limit, limit - 1, |last|)
    ensures var end := Run(limit, INITIAL, FillThen(limit, last));
      && Bytes(end.file) == limit - 1 + |last| && end.bytes == Add64(limit - 1, |last|)
      && end.file != [] && !end.pollFailed && (end.running <==> !Full(limit, end.bytes))
  {
    hide Bytes, AfterPoll, Filling, Singles, Admits, Add64;
    var packets := Filling(limit - 1);
    NoBytes();
    AllRecorded(limit, INITIAL, packets);
    RunConcat(limit, INITIAL, Singles(packets), [One(last)]);
    var s := Run(limit, INITIAL, Singles(packets));
    assert s.file == packets;
    OnePacket(limit, s, last);
    assert [One(last)][1..] == [];
    BytesAppend(packets, last);
  }

  /** Every limit is reached exactly by some run, which then exits as its final flush went. */
  lemma LimitReached(limit: nat)
    requires 0 < limit < 0x1_0000_0000_0000_0000
    ensures var end := Run(limit, INITIAL, FillThen(limit, Zeros(1)));
      && end.bytes == limit == Bytes(end.file)
      && ExitCode(end, true) == Some(0) && ExitCode(end, false) == Some(1)
  {
    hide Run, Bytes, FillThen;
    FillThenRecords(limit, Zeros(1));
    ExitCodeExact(limit, FillThen(limit, Zeros(1)), true);
    ExitCodeExact(limit, FillThen(limit, Zeros(1)), false);
  }

  /** An unsafe limit is exceeded by packets that come one per poll. */
  lemma OverrunExceeds(limit: nat)
    requires 0 < limit < 0x1_0000_0000_0000_0000 && !LimitSafe(limit)
    ensures var end := Run(limit, INITIAL, FillThen(limit, Zeros(LARGEST_PACKET)));
      Bytes(end.file) > limit > end.bytes
  {
    hide Run, Bytes, FillThen;
    FillThenRecords(limit, Zeros(LARGEST_PACKET));
  }

  /** Every run keeps the limit exactly when the limit is at most 2^64 - 2^32 + 1. */
  lemma LimitHonoured(limit: nat)
    requires 0 < limit < 0x1_0000_0000_0000_0000
    ensures (forall events: seq<Event> :: Bytes(Run(limit, INITIAL, events).file) <= limit) <==> LimitSafe(limit)
  {
    if LimitSafe(limit) {
      forall events: seq<Event> ensures Bytes(Run(limit, INITIAL, events).file) <= limit {
        CountersAreExact(limit, events);
      }
    } else {
      OverrunExceeds(limit);
    }
  }
}
