/** The growing entry tables of boy/collectors.c and the dumps that fill them. */
module Collectors {
  import opened Growth
  import opened Memory
  import opened Sums

  class EntryTable<T(0)> {
    const heap: Heap
    var entries: array<T>
    var block: Option<nat>
    var count: nat
    var capacity: nat
    ghost var copied: nat

    ghost predicate Valid()
      reads this, heap
      ensures Valid() ==> heap.Valid() && count <= entries.Length
    {
      && heap.Valid()
      && count <= capacity == entries.Length
      && Amortised(capacity, count, copied)
      && (block.Some? <==> capacity > 0)
      && BlockOf(block) <= heap.live
    }

    function Contents(): (s: seq<T>)
      requires count <= entries.Length
      reads this, entries
    {
      entries[..count]
    }

    /** Zeroed storage. */
    constructor (heap: Heap)
      requires heap.Valid()
      ensures this.heap == heap && Valid() && fresh(entries) && Contents() == [] && block == None
    {
      this.heap := heap;
      entries := new T[0];
      block, count, capacity, copied := None, 0, 0, 0;
    }

    /** Lines 13-36. */
    method Reserve(required: nat) returns (rc: int)
      requires Valid() && required == count + 1
      modifies this, heap
      ensures Valid() && (entries == old(entries) || fresh(entries))
      ensures count == old(count) && Contents() == old(Contents())
      ensures rc == 0 || rc == -1
      ensures heap.refused == old(heap.refused) + if rc == 0 then 0 else 1
      ensures rc == 0 ==> count < capacity
      ensures heap.live - BlockOf(block) == old(heap.live - BlockOf(block))
    {
      hide Amortised, IsGrowth, Heap.Valid;
      if capacity >= required {
        return 0;
      }
      var grown := GrownCapacity(capacity, required);
      GrowthAmortised(capacity, count, copied, grown);
      var moved := heap.Realloc(block);
      if moved.None? {
        return -1;
      }
      var slots := new T[grown];
      forall i | 0 <= i < capacity {
        slots[i] := entries[i];
      }
      assert slots[..count] == entries[..count];
      copied := copied + capacity;
      entries, block, capacity := slots, moved, grown;
      rc := 0;
    }

    /** The dump callbacks: one reply is appended, or an allocation failed and nothing changes. */
    method Append(entry: T) returns (rc: int)
      requires Valid()
      modifies this, entries, heap
      ensures Valid() && (entries == old(entries) || fresh(entries))
      ensures rc == 0 || rc == -1
      ensures heap.refused == old(heap.refused) + if rc == 0 then 0 else 1
      ensures Contents() == if rc == 0 then old(Contents()) + [entry] else old(Contents())
      ensures heap.live - BlockOf(block) == old(heap.live - BlockOf(block))
    {
      hide Amortised, Heap.Valid, BlockOf;
      rc := Reserve(count + 1);
      if rc == 0 {
        MoreRows(capacity, count, copied);
        entries[count] := entry;
        count := count + 1;
      }
    }

    /**
      `boy_collect_*`: the replies of one dump, in order. `sent` says whether the request could be
      sent, `completes` whether the dump ended well. Only that and a failed allocation can make the
      command fail; all replies are appended unless the request was not sent or an allocation failed.
    */
    method Collect(replies: seq<T>, sent: bool, completes: bool) returns (rc: int)
      requires Valid()
      modifies this, entries, heap
      ensures Valid() && (entries == old(entries) || fresh(entries))
      ensures rc == 0 || rc == 1
      ensures heap.refused == old(heap.refused) || heap.refused == old(heap.refused) + 1
      ensures rc == 0 <==> sent && completes && heap.refused == old(heap.refused)
      ensures sent && heap.refused == old(heap.refused) ==> Contents() == old(Contents()) + replies
      ensures !sent ==> Contents() == old(Contents()) && heap.refused == old(heap.refused)
      ensures old(Contents()) <= Contents() <= old(Contents()) + replies
      ensures heap.live - BlockOf(block) == old(heap.live - BlockOf(block))
    {
      hide Amortised, Heap.Valid, BlockOf;
      if !sent {
        return 1;
      }
      ghost var before := Contents();
      var i := 0;
      while i < |replies|
        invariant i <= |replies| && Valid() && (entries == old(entries) || fresh(entries))
        invariant Contents() == before + replies[..i] && heap.refused == old(heap.refused)
        invariant heap.live - BlockOf(block) == old(heap.live - BlockOf(block))
      {
        var appended := Append(replies[i]);
        if appended != 0 {
          return 1;
        }
        i := i + 1;
      }
      rc := if completes then 0 else 1;
    }

    /** Lines 38-60. */
    method Free()
      requires Valid()
      modifies this, heap
      ensures Valid() && fresh(entries) && Contents() == [] && block == None
      ensures heap.live == old(heap.live - BlockOf(block)) && heap.refused == old(heap.refused)
    {
      heap.Free(block);
      entries := new T[0];
      block, count, capacity, copied := None, 0, 0, 0;
    }
  }
}
