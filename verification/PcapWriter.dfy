/**
  beastie/pcap_writer.c as a session: the module-level `pcap`, `dumper` and
  `initialized`, and the output file they write to.
*/
module PcapWriter {
  import opened Sums

  type Packet = p: seq<bv8> | |p| < 0x1_0000_0000 witness []

  function Bytes(packets: seq<Packet>): nat {
    if packets == [] then 0 else Bytes(packets[..|packets| - 1]) + |packets[|packets| - 1]|
  }

  lemma {:induction false} BytesConcat(a: seq<Packet>, b: seq<Packet>)
    ensures Bytes(a + b) == Bytes(a) + Bytes(b)
  {
    if b == [] {
      assert a + b == a;
    } else {
      assert (a + b)[..|a| + |b| - 1] == a + b[..|b| - 1];
      BytesConcat(a, b[..|b| - 1]);
    }
  }

  class Writer {
    var pcap: bool
    var dumper: bool
    var initialized: bool
    /** The output file: its records, how often it was created, the bytes known to have reached it. */
    ghost var file: Option<seq<Packet>>
    ghost var creations: nat
    ghost var flushedBytes: nat

    ghost predicate Valid()
      reads this
    {
      && pcap == dumper == initialized
      && (initialized ==> file.Some?)
      && (file.Some? ==> flushedBytes <= Bytes(file.value))
      && (file.None? ==> flushedBytes == 0)
    }

    ghost function Records(): seq<Packet>
      reads this
    {
      if file.Some? then file.value else []
    }

    constructor ()
      ensures Valid() && !initialized && file.None? && creations == 0 && flushedBytes == 0
    {
      pcap, dumper, initialized := false, false, false;
      file, creations, flushedBytes := None, 0, 0;
    }

    /**
      Lines 11-34. Opening is lazy and may fail in two places; the handle says whether
      `pcap_open_dead` succeeded, `opens` whether `pcap_dump_open` did. Writing itself reports
      no errors.
    */
    method WritePacket(packet: Packet, handle: bool, opens: bool) returns (rc: int)
      requires Valid()
      modifies this
      ensures Valid()
      ensures rc == (if old(initialized) || (handle && opens) then 0 else -1)
      ensures rc == 0 ==> initialized && file == Some((if old(initialized) then old(Records()) else []) + [packet])
      ensures rc == 0 ==> creations == old(creations) + if old(initialized) then 0 else 1
      ensures rc == 0 ==> flushedBytes == if old(initialized) then old(flushedBytes) else 0
      ensures rc != 0 ==> !initialized && file == old(file)
      ensures rc != 0 ==> creations == old(creations) && flushedBytes == old(flushedBytes)
    {
      if !initialized {
        pcap := handle;
        if !pcap {
          return -1;
        }
        dumper := opens;
        if !dumper {
          pcap := false;
          return -1;
        }
        file, creations, flushedBytes := Some([]), creations + 1, 0;
        initialized := true;
      }
      ghost var before := file.value;
      assert (before + [packet])[..|before|] == before;
      file := Some(before + [packet]);
      rc := 0;
    }

    /** Lines 36-43. Without an open file there is nothing to flush. */
    method Flush(succeeds: bool) returns (rc: int)
      requires Valid()
      modifies this`flushedBytes
      ensures Valid()
      ensures rc == (if initialized && !succeeds then -1 else 0)
      ensures flushedBytes == if initialized && succeeds then Bytes(Records()) else old(flushedBytes)
    {
      if !initialized || !dumper {
        return 0;
      }
      if succeeds {
        flushedBytes := Bytes(file.value);
        return 0;
      }
      rc := -1;
    }

    /** Lines 45-59. The result of the last flush is ignored. */
    method Close(flushes: bool)
      requires Valid()
      modifies this
      ensures Valid() && !initialized && file == old(file) && creations == old(creations)
      ensures flushedBytes == if old(initialized) && flushes then Bytes(Records()) else old(flushedBytes)
    {
      if dumper {
        if flushes {
          flushedBytes := Bytes(file.value);
        }
        dumper := false;
      }
      if pcap {
        pcap := false;
      }
      initialized := false;
    }
  }
}
