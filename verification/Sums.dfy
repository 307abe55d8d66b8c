/** Options, minima, sums of natural numbers and the pointwise order on sequences. */
module Sums {
  datatype Option<+T> = None | Some(value: T)

  function Min(a: nat, b: nat): nat { if a <= b then a else b }

  function Max(a: nat, b: nat): nat { if a <= b then b else a }

  function Sum(s: seq<nat>): nat {
    if s == [] then 0 else s[0] + Sum(s[1..])
  }

  /** `b` is at least `a` everywhere. */
  ghost predicate Below(a: seq<nat>, b: seq<nat>) {
    |a| == |b| && forall j :: 0 <= j < |a| ==> a[j] <= b[j]
  }

  /** Pointwise difference. */
  function Minus(a: seq<nat>, b: seq<nat>): (r: seq<nat>)
    requires Below(b, a)
    ensures |r| == |a| && Below(r, a)
  {
    seq(|a|, j requires 0 <= j < |a| => a[j] - b[j])
  }

  lemma {:induction false} SumUpdate(s: seq<nat>, j: nat, x: nat)
    requires j < |s|
    ensures Sum(s[j := x]) + s[j] == Sum(s) + x
  {
    if j == 0 {
      assert s[j := x][1..] == s[1..];
    } else {
      assert s[j := x][1..] == s[1..][j - 1 := x];
      SumUpdate(s[1..], j - 1, x);
    }
  }

  lemma {:induction false} SumAppend(s: seq<nat>, x: nat)
    ensures Sum(s + [x]) == Sum(s) + x
  {
    if s == [] {
      assert s + [x] == [x];
    } else {
      assert (s + [x])[1..] == s[1..] + [x];
      SumAppend(s[1..], x);
    }
  }

  lemma {:induction false} SumMinus(a: seq<nat>, b: seq<nat>)
    requires Below(b, a)
    ensures Sum(Minus(a, b)) + Sum(b) == Sum(a)
  {
    if a != [] {
      assert Minus(a, b)[1..] == Minus(a[1..], b[1..]);
      SumMinus(a[1..], b[1..]);
    }
  }

  lemma SumMonotone(a: seq<nat>, b: seq<nat>)
    requires Below(a, b)
    ensures Sum(a) <= Sum(b)
  {
    SumMinus(b, a);
  }

  lemma {:induction false} SumPositive(a: seq<nat>, j: nat)
    requires j < |a|
    ensures a[j] <= Sum(a)
  {
    if j > 0 { SumPositive(a[1..], j - 1); }
  }

  /** Comparable sequences with the same sum are the same sequence. */
  lemma BelowSameSum(a: seq<nat>, b: seq<nat>)
    requires Below(a, b) && Sum(a) == Sum(b)
    ensures a == b
  {
    SumMinus(b, a);
    forall j | 0 <= j < |a| ensures a[j] == b[j] { SumPositive(Minus(b, a), j); }
  }

  /** Comparable sequences whose sums differ by one differ by one at one index. */
  lemma {:induction false} BelowNextSum(a: seq<nat>, b: seq<nat>) returns (j: nat)
    requires Below(a, b) && Sum(b) == Sum(a) + 1
    ensures j < |a| && b == a[j := a[j] + 1]
  {
    if a[0] == b[0] {
      var k := BelowNextSum(a[1..], b[1..]);
      j := k + 1;
      assert b == [b[0]] + b[1..];
    } else {
      SumMonotone(a[1..], b[1..]);
      BelowSameSum(a[1..], b[1..]);
      j := 0;
      assert b == [b[0]] + b[1..];
    }
  }
}
