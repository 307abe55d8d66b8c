/** The interface table of boy/collectors.h and the predicates and searches over it. */
module Interfaces {
  import opened Sums

  datatype IfType = Hardware | Sub | P2p | Pipe | OtherType

  datatype Interface = Interface(
    swIfIndex: nat,
    name: string,
    ifType: IfType,
    devType: string,
    adminUp: bool,
    linkUp: bool,
    linkSpeed: nat,
    ethernetAddress: string,
    cardFamily: string
  )

  predicate IsPhysical(entry: Interface) {
    entry.ifType == Hardware && entry.name != "local0" && !("memif" <= entry.name)
  }

  predicate IsSpanSourceCandidate(entry: Interface) {
    && (entry.ifType == Hardware || (entry.ifType == Sub && '.' in entry.name))
    && entry.name != "local0" && !("memif" <= entry.name)
  }

  /** The position of the first entry with this index. */
  function PositionOfIndex(entries: seq<Interface>, swIfIndex: nat): (r: Option<nat>)
    ensures r.Some? ==> r.value < |entries| && entries[r.value].swIfIndex == swIfIndex
    ensures r.Some? ==> forall i :: 0 <= i < r.value ==> entries[i].swIfIndex != swIfIndex
    ensures r.None? ==> forall i :: 0 <= i < |entries| ==> entries[i].swIfIndex != swIfIndex
  {
    if entries == [] then None
    else
      var n := |entries| - 1;
      var before := PositionOfIndex(entries[..n], swIfIndex);
      if before.Some? then before
      else if entries[n].swIfIndex == swIfIndex then Some(n)
      else None
  }

  /** The position of the first entry with this name. */
  function PositionOfName(entries: seq<Interface>, name: string): (r: Option<nat>)
    ensures r.Some? ==> r.value < |entries| && entries[r.value].name == name
    ensures r.Some? ==> forall i :: 0 <= i < r.value ==> entries[i].name != name
    ensures r.None? ==> forall i :: 0 <= i < |entries| ==> entries[i].name != name
  {
    if entries == [] then None
    else
      var n := |entries| - 1;
      var before := PositionOfName(entries[..n], name);
      if before.Some? then before
      else if entries[n].name == name then Some(n)
      else None
  }

  /** Lines 91-103 of span_cmd.c. */
  method FindByIndex(entries: seq<Interface>, swIfIndex: nat) returns (position: Option<nat>)
    ensures position == PositionOfIndex(entries, swIfIndex)
  {
    for i := 0 to |entries|
      invariant PositionOfIndex(entries[..i], swIfIndex) == None
    {
      assert entries[..i + 1][..i] == entries[..i];
      if entries[i].swIfIndex == swIfIndex {
        return Some(i);
      }
    }
    assert entries[..|entries|] == entries;
    position := None;
  }

  /** Lines 105-117 of span_cmd.c and 20-32 of phy_cmd.c. */
  method FindByName(entries: seq<Interface>, name: string) returns (position: Option<nat>)
    ensures position == PositionOfName(entries, name)
  {
    for i := 0 to |entries|
      invariant PositionOfName(entries[..i], name) == None
    {
      assert entries[..i + 1][..i] == entries[..i];
      if entries[i].name == name {
        return Some(i);
      }
    }
    assert entries[..|entries|] == entries;
    position := None;
  }

  const UNKNOWN_NAME := "<unknown>"

  /** `boy_find_interface_name`. */
  function NameOfIndex(entries: seq<Interface>, swIfIndex: nat): string {
    var position := PositionOfIndex(entries, swIfIndex);
    if position.Some? then entries[position.value].name else UNKNOWN_NAME
  }
}
