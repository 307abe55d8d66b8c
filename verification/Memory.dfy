/**
  A heap whose every allocation may fail. Blocks are numbered; a number is handed
  out once, and releasing a block needs it to be live, so a block is released at
  most once.
*/
module Memory {
  import opened Sums

  class Heap {
    var next: nat
    ghost var live: set<nat>
    ghost var released: set<nat>
    /** How many allocations failed so far. */
    ghost var refused: nat

    ghost predicate Valid()
      reads this
    {
      && live !! released
      && forall b: nat :: b < next <==> b in live || b in released
    }

    lemma Accounted(since: nat, alive: set<nat>)
      requires Valid() && live == alive && forall b :: b in alive ==> b < since
      ensures forall b: nat :: since <= b < next ==> b in released
    {
    }

    lemma LiveIsOld()
      requires Valid()
      ensures forall b :: b in live ==> b < next
    {
    }

    constructor ()
      ensures Valid() && live == released == {} && next == refused == 0
    {
      next, live, released, refused := 0, {}, {}, 0;
    }

    /** `malloc` and `calloc`. */
    method Alloc() returns (block: Option<nat>)
      requires Valid()
      modifies this
      ensures Valid() && released == old(released)
      ensures refused == old(refused) + if block.Some? then 0 else 1
      ensures block.None? ==> live == old(live) && next == old(next)
      ensures block.Some? ==> block.value == old(next) && next == old(next) + 1
      ensures block.Some? ==> block.value !in old(live) && block.value in live && live == old(live) + BlockOf(block)
    {
      var succeeds: bool := *;
      if succeeds {
        block := Some(next);
        live := live + {next};
        next := next + 1;
      } else {
        block := None;
        refused := refused + 1;
      }
    }

    /** `free`; releasing NULL does nothing. */
    method Free(block: Option<nat>)
      requires Valid() && (block.Some? ==> block.value in live)
      modifies this
      ensures Valid() && next == old(next) && refused == old(refused)
      ensures live == old(live) - BlockOf(block) && released == old(released) + BlockOf(block)
    {
      if block.Some? {
        live := live - {block.value};
        released := released + {block.value};
      }
    }

    /** `realloc`: a fresh block replaces the old one, or nothing happens. */
    method Realloc(previous: Option<nat>) returns (block: Option<nat>)
      requires Valid() && (previous.Some? ==> previous.value in live)
      modifies this
      ensures Valid() && refused == old(refused) + if block.Some? then 0 else 1
      ensures block.None? ==> live == old(live) && next == old(next) && released == old(released)
      ensures block.Some? ==> block.value == old(next) && next == old(next) + 1 && block.value !in old(live)
      ensures block.Some? ==> live == old(live) - BlockOf(previous) + BlockOf(block)
      ensures block.Some? ==> released == old(released) + BlockOf(previous)
    {
      block := Alloc();
      if block.Some? {
        Free(previous);
      }
    }
  }

  ghost function BlockOf(block: Option<nat>): set<nat> {
    if block.Some? then {block.value} else {}
  }

  lemma FreshBlock(block: Option<nat>, live: set<nat>)
    requires block.Some? ==> block.value !in live
    ensures BlockOf(block) !! live
  {
  }
}
