/**
  The doubling growth shared by `app_table_reserve_rows` (common/table.c) and
  `boy_reserve_entries` (boy/collectors.c), and its amortised cost.
*/
module Growth {
  function Pow2(k: nat): (r: nat)
    ensures r >= 1
  {
    if k == 0 then 1 else 2 * Pow2(k - 1)
  }

  /** The capacity tried first. */
  function FirstTry(capacity: nat): nat { if capacity == 0 then 8 else capacity * 2 }

  /** The smallest doubling of the first try that is large enough. */
  ghost predicate IsGrowth(capacity: nat, required: nat, grown: nat) {
    exists k: nat ::
      && grown == FirstTry(capacity) * Pow2(k) >= required
      && (k == 0 || FirstTry(capacity) * Pow2(k - 1) < required)
  }

  lemma DoublingStep(first: nat, k: nat)
    ensures first * Pow2(k + 1) == first * Pow2(k) * 2
  {
  }

  method GrownCapacity(capacity: nat, required: nat) returns (grown: nat)
    ensures IsGrowth(capacity, required, grown)
  {
    grown := if capacity == 0 then 8 else capacity * 2;
    assert grown == FirstTry(capacity) * Pow2(0);
    hide Pow2;
    ghost var k := 0;
    while grown < required
      invariant grown == FirstTry(capacity) * Pow2(k) && grown > 0
      invariant k == 0 || FirstTry(capacity) * Pow2(k - 1) < required
      decreases required - grown
    {
      DoublingStep(FirstTry(capacity), k);
      grown := grown * 2;
      k := k + 1;
    }
  }

  /**
    The state of a growing store: `count` used slots out of `capacity`, `copied` slots moved by
    reallocations so far. The capacity is 0 or 8 times a power of two.
  */
  ghost predicate Amortised(capacity: nat, count: nat, copied: nat) {
    && count <= capacity
    && (capacity == 0 ==> copied == 0)
    && (capacity != 0 ==> exists k: nat ::
      capacity == 8 * Pow2(k) && copied + 8 == capacity && (k > 0 ==> capacity <= 2 * count))
  }

  lemma FirstTryIsEnough(capacity: nat, required: nat, grown: nat)
    requires IsGrowth(capacity, required, grown) && FirstTry(capacity) >= required
    ensures grown == FirstTry(capacity)
  {
    var first := FirstTry(capacity);
    var k: nat :| grown == first * Pow2(k) && (k == 0 || first * Pow2(k - 1) < required);
    if k > 0 {
      MulMonotone(first, 1, Pow2(k - 1));
    }
  }

  lemma MulMonotone(a: nat, b: nat, c: nat)
    requires b <= c
    ensures a * b <= a * c
  {
  }

  /** Growing a full store by one slot at least doubles it and keeps the amortised bound. */
  lemma GrowthAmortised(capacity: nat, count: nat, copied: nat, grown: nat)
    requires Amortised(capacity, count, copied) && capacity < count + 1
    requires IsGrowth(capacity, count + 1, grown)
    ensures Amortised(grown, count, copied + capacity) && count < grown
  {
    FirstTryIsEnough(capacity, count + 1, grown);
    if capacity == 0 {
      assert grown == 8 * Pow2(0);
    } else {
      var l: nat :| capacity == 8 * Pow2(l) && copied + 8 == capacity;
      assert grown == 8 * Pow2(l + 1);
    }
  }

  lemma MoreRows(capacity: nat, count: nat, copied: nat)
    requires Amortised(capacity, count, copied) && count < capacity
    ensures Amortised(capacity, count + 1, copied)
  {
  }

  /** Reallocation copies at most two slots per stored element. */
  lemma CopiesBounded(capacity: nat, count: nat, copied: nat)
    requires Amortised(capacity, count, copied)
    ensures copied <= 2 * count
  {
    if capacity != 0 {
      var k: nat :| capacity == 8 * Pow2(k) && copied + 8 == capacity && (k > 0 ==> capacity <= 2 * count);
      if k == 0 { assert capacity == 8; }
    }
  }
}
