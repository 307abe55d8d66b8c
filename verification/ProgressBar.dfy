/** The bar that beastie/commands/capture_cmd.c draws, in 64-bit arithmetic. */
module ProgressBar {
  import opened Capture
  import opened CaptureLimit
  import opened CaptureTheorems
  import opened PcapWriter
  import opened Sums

  const BAR_WIDTH: nat := 32

  /** Lines 45-48: the product wraps at 64 bits before the division. */
  function Filled(bytes: nat, limit: nat): (n: nat)
    ensures n <= BAR_WIDTH
  {
    if limit == 0 then 0
    else Min((bytes * BAR_WIDTH) % U64 / limit, BAR_WIDTH)
  }

  lemma QuotientBelow(a: nat, q: nat, d: nat)
    requires d > 0
    ensures a < q * d <==> a / d < q
  {
    var p := a / d;
    assert a == p * d + a % d;
    if p < q { assert (p + 1) * d <= q * d; } else { assert q * d <= p * d; }
  }

  /**
    Lines 41-54. Mark `i` is set when the bytes, times 32 at 64 bits, amount to `i + 1` limits; a
    capture without a limit has no mark.
  */
  method DrawBar(bytes: nat, limit: nat) returns (bar: array<char>)
    ensures fresh(bar) && bar.Length == 32
    ensures forall i :: 0 <= i < 32 ==>
      bar[i] == if limit > 0 && (i + 1) * limit <= (bytes * 32) % 0x1_0000_0000_0000_0000 then '#' else '.'
    ensures forall i :: 0 <= i < 32 ==> (bar[i] == '#' <==> i < Filled(bytes, limit))
  {
    var filled: nat := 0;
    if limit > 0 {
      filled := (bytes * BAR_WIDTH) % U64 / limit;
      if filled > BAR_WIDTH {
        filled := BAR_WIDTH;
      }
    }
    bar := new char[BAR_WIDTH](_ => ' ');
    ghost var product := (bytes * 32) % U64;
    for i := 0 to BAR_WIDTH
      invariant forall k :: 0 <= k < i ==> bar[k] == if k < filled then '#' else '.'
      invariant forall k :: 0 <= k < i ==> bar[k] == if limit > 0 && (k + 1) * limit <= product then '#' else '.'
    {
      if limit > 0 { QuotientBelow(product, i + 1, limit); }
      bar[i] := if i < filled then '#' else '.';
    }
  }

  lemma QuotientGrows(a: nat, b: nat, d: nat)
    requires a <= b && d > 0
    ensures a / d <= b / d
  {
    QuotientBelow(a, b / d + 1, d);
    assert b < (b / d + 1) * d;
  }

  /** Without wrapping the bar never shrinks, and it is full exactly at the limit. */
  lemma BarTracksProgress(less: nat, more: nat, limit: nat)
    requires 0 < limit && limit * BAR_WIDTH < U64 && less <= more <= limit
    ensures Filled(less, limit) <= Filled(more, limit)
    ensures Filled(more, limit) == BAR_WIDTH <==> more == limit
    ensures Filled(less, limit) * limit <= less * 32 < (Filled(less, limit) + 1) * limit
  {
    hide Filled;
    FilledUnwrapped(less, limit);
    FilledUnwrapped(more, limit);
    QuotientGrows(less * BAR_WIDTH, more * BAR_WIDTH, limit);
    QuotientBelow(more * BAR_WIDTH, BAR_WIDTH, limit);
  }

  lemma FilledUnwrapped(bytes: nat, limit: nat)
    requires 0 < limit && limit * BAR_WIDTH < U64 && bytes <= limit
    ensures Filled(bytes, limit) == Min(bytes * BAR_WIDTH / limit, BAR_WIDTH)
  {
    var product := bytes * BAR_WIDTH;
    assert product < U64 && product % U64 == product;
  }

  /** Every limit is reached by some run, and the bar at the limit is full exactly for limits below 2^59. */
  lemma FullBarAtLimit(limit: nat)
    requires 0 < limit < 0x1_0000_0000_0000_0000
    ensures Filled(limit, limit) == BAR_WIDTH <==> limit < 0x0800_0000_0000_0000
    ensures var end := Run(limit, INITIAL, FillThen(limit, Zeros(1)));
      end.bytes == limit == Bytes(end.file)
  {
    hide Run, Bytes, FillThen;
    LimitReached(limit);
    var wrapped := (limit * BAR_WIDTH) % U64;
    QuotientBelow(wrapped, BAR_WIDTH, limit);
  }

  /** A run reaches the limit 2^59, where the product wraps to zero and the bar is empty. */
  lemma EmptyBarExample()
    ensures var limit := 0x0800_0000_0000_0000;
      var end := Run(limit, INITIAL, FillThen(limit, Zeros(1)));
      end.bytes == limit == Bytes(end.file) && Filled(end.bytes, limit) == 0
  {
    hide Run, Bytes, FillThen;
    LimitReached(0x0800_0000_0000_0000);
  }

  /** Over a run the bar never shrinks, and it is full exactly when the limit is reached. */
  lemma BarOverRun(limit: nat, a: seq<Event>, b: seq<Event>)
    requires 0 < limit < 0x0800_0000_0000_0000
    ensures var early, late := Run(limit, INITIAL, a), Run(limit, INITIAL, a + b);
      && Filled(early.bytes, limit) <= Filled(late.bytes, limit)
      && (Filled(late.bytes, limit) == BAR_WIDTH <==> late.bytes == limit)
  {
    hide Run, Filled;
    CountersAreExact(limit, a);
    CountersAreExact(limit, a + b);
    FileGrows(limit, a, b);
    var early, late := Run(limit, INITIAL, a), Run(limit, INITIAL, a + b);
    BytesOfPrefix(late.file, |early.file|, |late.file|);
    assert late.file[..|early.file|] == early.file && late.file[..|late.file|] == late.file;
    BarTracksProgress(early.bytes, late.bytes, limit);
  }
}
