/**
  The arithmetic behind the shrink loop of common/table.c. Columns stand in a
  circle, each with some slack; a visit takes one unit from the visited column
  if it has any slack left. What has been taken after any number of visits is a
  "water level": every column has lost the same amount, or one more for a prefix
  of the columns, capped by its slack.
*/
module WaterLevel {
  import opened Sums

  /** The loss of every column after `k` full rounds and `p` visits of the next one. */
  function Poured(slack: seq<nat>, k: nat, p: nat): (loss: seq<nat>)
    ensures |loss| == |slack| && Below(loss, slack)
  {
    seq(|slack|, j requires 0 <= j < |slack| => Min(slack[j], if j < p then k + 1 else k))
  }

  ghost predicate IsLevel(slack: seq<nat>, loss: seq<nat>) {
    exists k: nat, p: nat :: loss == Poured(slack, k, p)
  }

  /** One visit. */
  lemma PouredVisit(slack: seq<nat>, k: nat, p: nat)
    requires p < |slack|
    ensures slack[p] <= k ==> Poured(slack, k, p + 1) == Poured(slack, k, p)
    ensures slack[p] > k ==> Poured(slack, k, p + 1) == Poured(slack, k, p)[p := k + 1]
    ensures Sum(Poured(slack, k, p + 1)) == Sum(Poured(slack, k, p)) + if slack[p] > k then 1 else 0
  {
    if slack[p] > k {
      assert Poured(slack, k, p + 1) == Poured(slack, k, p)[p := k + 1];
      SumUpdate(Poured(slack, k, p), p, k + 1);
    } else {
      assert Poured(slack, k, p + 1) == Poured(slack, k, p);
    }
  }

  /** One visit, seen on what remains of `start`. */
  lemma RemainderVisit(start: seq<nat>, slack: seq<nat>, k: nat, p: nat)
    requires p < |slack| && Below(slack, start)
    ensures var now, next := Minus(start, Poured(slack, k, p)), Minus(start, Poured(slack, k, p + 1));
      && now[p] == start[p] - Min(slack[p], k)
      && next == (if slack[p] > k then now[p := now[p] - 1] else now)
    ensures Sum(Poured(slack, k, p + 1)) == Sum(Poured(slack, k, p)) + if slack[p] > k then 1 else 0
  {
    var now, next := Minus(start, Poured(slack, k, p)), Minus(start, Poured(slack, k, p + 1));
    PouredVisit(slack, k, p);
    if slack[p] > k { assert next == now[p := now[p] - 1]; }
  }

  lemma PouredRound(slack: seq<nat>, k: nat)
    ensures Poured(slack, k, |slack|) == Poured(slack, k + 1, 0)
  {
    assert Poured(slack, k, |slack|) == Poured(slack, k + 1, 0);
  }

  lemma PouredGrows(slack: seq<nat>, k: nat, p: nat, q: nat)
    requires p <= q <= |slack|
    ensures Below(Poured(slack, k, p), Poured(slack, k, q))
    ensures Sum(Poured(slack, k, p)) <= Sum(Poured(slack, k, q))
  {
    SumMonotone(Poured(slack, k, p), Poured(slack, k, q));
  }

  /** A round in which nobody gave anything means that nobody has anything left. */
  lemma IdleRound(slack: seq<nat>, k: nat)
    requires Sum(Poured(slack, k, |slack|)) == Sum(Poured(slack, k, 0))
    ensures Poured(slack, k, 0) == Poured(slack, k, |slack|) == slack
  {
    PouredGrows(slack, k, 0, |slack|);
    BelowSameSum(Poured(slack, k, 0), Poured(slack, k, |slack|));
    forall j | 0 <= j < |slack| ensures slack[j] <= k {
      assert Poured(slack, k, 0)[j] == Poured(slack, k, |slack|)[j];
    }
    assert Poured(slack, k, 0) == slack;
  }

  lemma PouredNothing(slack: seq<nat>)
    ensures Poured(slack, 0, 0) == seq(|slack|, _ => 0)
    ensures Sum(Poured(slack, 0, 0)) == 0
  {
    assert Poured(slack, 0, 0) == seq(|slack|, _ => 0);
    SumZeros(|slack|);
  }

  lemma {:induction false} SumZeros(n: nat)
    ensures Sum(seq(n, _ => 0)) == 0
  {
    if n > 0 {
      assert seq(n, _ => 0)[1..] == seq(n - 1, _ => 0);
      SumZeros(n - 1);
    }
  }

  /** Two levels of the same slack are comparable. */
  lemma LevelsCompare(slack: seq<nat>, a: seq<nat>, b: seq<nat>)
    requires IsLevel(slack, a) && IsLevel(slack, b)
    ensures Below(a, b) || Below(b, a)
  {
    var k: nat, p: nat :| a == Poured(slack, k, p);
    var l: nat, q: nat :| b == Poured(slack, l, q);
    if k < l || (k == l && p <= q) {
      assert Below(a, b);
    } else {
      assert Below(b, a);
    }
  }

  /** A level is determined by its total. */
  lemma LevelUnique(slack: seq<nat>, a: seq<nat>, b: seq<nat>)
    requires IsLevel(slack, a) && IsLevel(slack, b) && Sum(a) == Sum(b)
    ensures a == b
  {
    LevelsCompare(slack, a, b);
    if Below(a, b) { BelowSameSum(a, b); } else { BelowSameSum(b, a); }
  }

  /** Taking one unit more takes it from exactly one column. */
  lemma LevelNext(slack: seq<nat>, a: seq<nat>, b: seq<nat>) returns (j: nat)
    requires IsLevel(slack, a) && IsLevel(slack, b) && Sum(b) == Sum(a) + 1
    ensures j < |slack| && |a| == |slack| && b == a[j := a[j] + 1]
  {
    LevelsCompare(slack, a, b);
    if Below(b, a) {
      SumMonotone(b, a);
      assert false;
    } else {
      j := BelowNextSum(a, b);
    }
  }

  /** Every total up to the whole slack is the total of some level. */
  lemma {:induction false} LevelExists(slack: seq<nat>, total: nat) returns (k: nat, p: nat)
    requires total <= Sum(slack)
    ensures p <= |slack| && Sum(Poured(slack, k, p)) == total
  {
    if total == 0 {
      k, p := 0, 0;
      PouredNothing(slack);
    } else {
      k, p := LevelExists(slack, total - 1);
      k, p := NextVisit(slack, k, p);
    }
  }

  lemma SlackLeft(slack: seq<nat>, k: nat) returns (j: nat)
    requires Sum(Poured(slack, k, 0)) < Sum(slack)
    ensures j < |slack| && slack[j] > k
  {
    assert Poured(slack, k, 0) != slack;
    assert exists i :: 0 <= i < |slack| && Poured(slack, k, 0)[i] != slack[i];
    j :| 0 <= j < |slack| && slack[j] > k;
  }

  lemma NextVisit(slack: seq<nat>, k0: nat, p0: nat) returns (k: nat, p: nat)
    requires p0 <= |slack| && Sum(Poured(slack, k0, p0)) < Sum(slack)
    ensures p <= |slack| && Sum(Poured(slack, k, p)) == Sum(Poured(slack, k0, p0)) + 1
  {
    hide Poured, Sum;
    k, p := k0, p0;
    while p < |slack| && slack[p] <= k
      invariant p <= |slack| && Sum(Poured(slack, k, p)) == Sum(Poured(slack, k0, p0))
    {
      PouredVisit(slack, k, p);
      p := p + 1;
    }
    if p == |slack| {
      PouredRound(slack, k);
      k, p := k + 1, 0;
      var some := SlackLeft(slack, k);
      while p < some && slack[p] <= k
        invariant p <= some && Sum(Poured(slack, k, p)) == Sum(Poured(slack, k0, p0))
      {
        PouredVisit(slack, k, p);
        p := p + 1;
      }
    }
    PouredVisit(slack, k, p);
    p := p + 1;
  }

  /**
    What is taken from the columns to gather `budget` units, or everything when
    there is less: the one level with that total.
  */
  ghost function Drain(slack: seq<nat>, budget: nat): (loss: seq<nat>)
    ensures |loss| == |slack| && Below(loss, slack)
    ensures IsLevel(slack, loss)
    ensures Sum(loss) == Min(budget, Sum(slack))
  {
    assert exists l :: IsLevel(slack, l) && Sum(l) == Min(budget, Sum(slack)) by {
      var k, p := LevelExists(slack, Min(budget, Sum(slack)));
      assert IsLevel(slack, Poured(slack, k, p));
    }
    var l :| IsLevel(slack, l) && Sum(l) == Min(budget, Sum(slack));
    l
  }

  /** A level with the right total is what draining gives. */
  lemma DrainIs(slack: seq<nat>, budget: nat, k: nat, p: nat)
    requires Sum(Poured(slack, k, p)) == Min(budget, Sum(slack))
    ensures Drain(slack, budget) == Poured(slack, k, p)
  {
    assert IsLevel(slack, Poured(slack, k, p));
    LevelUnique(slack, Drain(slack, budget), Poured(slack, k, p));
  }

  lemma DrainAll(slack: seq<nat>, budget: nat)
    requires budget >= Sum(slack)
    ensures Drain(slack, budget) == slack
  {
    BelowSameSum(Drain(slack, budget), slack);
  }

  lemma DrainNothing(slack: seq<nat>)
    ensures Drain(slack, 0) == seq(|slack|, _ => 0)
  {
    PouredNothing(slack);
    DrainIs(slack, 0, 0, 0);
  }
}
