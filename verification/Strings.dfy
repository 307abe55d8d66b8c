/** Repeated characters, lines, searching and decimal numbers. */
module Strings {
  function Repeat(ch: char, count: nat): (s: string)
    ensures |s| == count && forall i :: 0 <= i < count ==> s[i] == ch
  {
    seq(count, _ => ch)
  }

  /** Every line with a newline behind it. */
  function Unlines(lines: seq<string>): string {
    if lines == [] then "" else lines[0] + "\n" + Unlines(lines[1..])
  }

  /** Where `ch` first occurs, or the length of `s`. */
  function Find(s: string, ch: char): (n: nat)
    ensures n <= |s| && (forall i :: 0 <= i < n ==> s[i] != ch) && (n < |s| ==> s[n] == ch)
  {
    if s == "" || s[0] == ch then 0 else 1 + Find(s[1..], ch)
  }

  predicate IsDigit(ch: char) { '0' <= ch <= '9' }

  /** What `%u` prints. */
  function Decimal(n: nat): (s: string)
    ensures s != "" && forall i :: 0 <= i < |s| ==> IsDigit(s[i])
  {
    if n < 10 then [Digit(n)] else Decimal(n / 10) + [Digit(n % 10)]
  }

  function Digit(d: nat): (ch: char)
    requires d < 10
    ensures IsDigit(ch)
  {
    '0' + d as char
  }

  /** The number a string of digits stands for. */
  function DecimalValue(s: string): nat {
    if s == "" then 0
    else
      var last := s[|s| - 1];
      10 * DecimalValue(s[..|s| - 1]) + if IsDigit(last) then (last - '0') as nat else 0
  }

  lemma {:induction false} DecimalRoundTrip(n: nat)
    ensures DecimalValue(Decimal(n)) == n
  {
    if n >= 10 {
      DecimalRoundTrip(n / 10);
      assert Decimal(n)[..|Decimal(n)| - 1] == Decimal(n / 10);
    } else {
      assert Decimal(n)[..0] == "";
    }
  }
}
