/**
  What VPP keeps for boy: the interface list and the SPAN map. Every API call has
  an outcome chosen by the environment and takes effect only when it reports success.
*/
module Vpp {
  import opened Interfaces

  datatype SpanState = Disabled | Rx | Tx | RxTx

  datatype SpanKey = SpanKey(source: nat, dest: nat, l2: bool)

  datatype SpanEntry = SpanEntry(source: nat, dest: nat, state: SpanState, l2: bool) {
    function Key(): SpanKey { SpanKey(source, dest, l2) }
  }

  type SpanMap = map<SpanKey, SpanState>

  /** How a request with a single reply can end. */
  datatype Outcome = NoMessage | CallFailed | NoReply | Reply(retval: int)

  ghost predicate NoDisabled(span: SpanMap) { forall k :: k in span ==> span[k] != Disabled }

  function WithSpan(span: SpanMap, key: SpanKey, state: SpanState): SpanMap {
    if state == Disabled then span - {key} else span[key := state]
  }

  function AdminUp(entries: seq<Interface>, swIfIndex: nat): (r: seq<Interface>)
    ensures |r| == |entries|
  {
    seq(|entries|, i requires 0 <= i < |entries| =>
      if entries[i].swIfIndex == swIfIndex then entries[i].(adminUp := true) else entries[i])
  }

  /** `entries` lists the part of the map with this L2 flag, every entry once. */
  ghost predicate Enumerates(entries: seq<SpanEntry>, span: SpanMap, l2: bool) {
    && (forall i :: 0 <= i < |entries| ==>
          entries[i].l2 == l2 && entries[i].Key() in span && span[entries[i].Key()] == entries[i].state)
    && (forall i, j :: 0 <= i < j < |entries| ==> entries[i].Key() != entries[j].Key())
    && forall k :: k in span && k.l2 == l2 ==> HasKey(entries, k)
  }

  ghost predicate HasKey(entries: seq<SpanEntry>, k: SpanKey) {
    exists i :: 0 <= i < |entries| && entries[i].Key() == k
  }

  lemma HasKeyNext(entries: seq<SpanEntry>, e: SpanEntry)
    ensures forall k :: HasKey(entries + [e], k) <==> HasKey(entries, k) || k == e.Key()
  {
    forall k ensures HasKey(entries + [e], k) <==> HasKey(entries, k) || k == e.Key() {
      assert (entries + [e])[|entries|] == e;
      assert forall i :: 0 <= i < |entries| ==> (entries + [e])[i] == entries[i];
    }
  }

  class Server {
    var interfaces: seq<Interface>
    var span: SpanMap

    constructor (interfaces: seq<Interface>)
      ensures this.interfaces == interfaces && span == map[]
    {
      this.interfaces, span := interfaces, map[];
    }

    /** `sw_interface_span_enable_disable`. */
    method SetSpan(source: nat, dest: nat, state: SpanState, l2: bool, outcome: Outcome)
      modifies this`span
      ensures span == if outcome == Reply(0) then WithSpan(old(span), SpanKey(source, dest, l2), state) else old(span)
    {
      if outcome == Reply(0) {
        span := WithSpan(span, SpanKey(source, dest, l2), state);
      }
    }

    /** `sw_interface_set_flags` with the admin-up flag. */
    method SetAdminUp(swIfIndex: nat, outcome: Outcome)
      modifies this`interfaces
      ensures interfaces == if outcome == Reply(0) then AdminUp(old(interfaces), swIfIndex) else old(interfaces)
    {
      if outcome == Reply(0) {
        interfaces := AdminUp(interfaces, swIfIndex);
      }
    }

    /** `sw_interface_span_dump`: the entries with this flag, in an order of VPP's own. */
    method DumpSpan(l2: bool) returns (entries: seq<SpanEntry>)
      ensures Enumerates(entries, span, l2)
    {
      hide HasKey;
      entries := [];
      var todo := set k | k in span && k.l2 == l2;
      while todo != {}
        invariant forall k :: k in todo ==> k in span && k.l2 == l2
        invariant forall i :: 0 <= i < |entries| ==>
          entries[i].l2 == l2 && entries[i].Key() in span && span[entries[i].Key()] == entries[i].state
        invariant forall i :: 0 <= i < |entries| ==> entries[i].Key() !in todo
        invariant forall i, j :: 0 <= i < j < |entries| ==> entries[i].Key() != entries[j].Key()
        invariant forall k :: k in span && k.l2 == l2 && k !in todo ==> HasKey(entries, k)
        decreases |todo|
      {
        var k :| k in todo;
        var entry := SpanEntry(k.source, k.dest, span[k], k.l2);
        HasKeyNext(entries, entry);
        entries := entries + [entry];
        todo := todo - {k};
      }
    }
  }
}
