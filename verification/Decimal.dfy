/** Decimal text of unsigned 64-bit integers, as Rust's `to_string` writes it and `parse::<u64>` reads it. */
module Decimal {
  import opened Wrappers

  const U64_MAX: nat := 0xFFFF_FFFF_FFFF_FFFF

  function Digit(d: nat): (c: char)
    requires d < 10
    ensures '0' <= c <= '9' && DigitValue(c) == d
  {
    ['0', '1', '2', '3', '4', '5', '6', '7', '8', '9'][d]
  }

  predicate IsDigit(c: char) {
    '0' <= c <= '9'
  }

  function DigitValue(c: char): nat
    requires IsDigit(c)
  {
    c as int - '0' as int
  }

  function Text(n: nat): string {
    if n < 10 then [Digit(n)] else Text(n / 10) + [Digit(n % 10)]
  }

  /** The value of a nonempty string of digits, of any length. */
  function Value(s: string): Option<nat>
    decreases |s|
  {
    if s == [] then None
    else
      var last := s[|s| - 1];
      if !IsDigit(last) then None
      else if |s| == 1 then Some(DigitValue(last))
      else
        match Value(s[..|s| - 1])
        case None => None
        case Some(v) => Some(10 * v + DigitValue(last))
  }

  function ParseU64(s: string): Option<nat> {
    var digits := if |s| > 1 && s[0] == '+' then s[1..] else s;
    match Value(digits)
    case Some(v) => if v <= U64_MAX then Some(v) else None
    case None => None
  }

  lemma {:induction false} ValueOfText(n: nat)
    ensures Value(Text(n)) == Some(n)
    ensures |Text(n)| > 0 && forall i | 0 <= i < |Text(n)| :: IsDigit(Text(n)[i])
  {
    if n >= 10 {
      ValueOfText(n / 10);
      assert Text(n)[..|Text(n)| - 1] == Text(n / 10);
    }
  }

  function Pow10(k: nat): nat {
    if k == 0 then 1 else 10 * Pow10(k - 1)
  }

  lemma {:induction false} TextLength(n: nat, k: nat)
    requires k > 0 && n < Pow10(k)
    ensures |Text(n)| <= k
  {
    if n >= 10 {
      TextLength(n / 10, k - 1);
    }
  }

  lemma {:induction false} ParsesBack(n: nat)
    requires n <= U64_MAX
    ensures ParseU64(Text(n)) == Some(n) && |Text(n)| <= 20
  {
    ValueOfText(n);
    assert Pow10(20) == 100_000_000_000_000_000_000 by {
      assert Pow10(5) == 100_000;
      assert Pow10(10) == 100_000 * Pow10(5);
      assert Pow10(15) == 100_000 * Pow10(10);
      assert Pow10(20) == 100_000 * Pow10(15);
    }
    TextLength(n, 20);
  }

  lemma TextInjective(m: nat, n: nat)
    requires Text(m) == Text(n)
    ensures m == n
  {
    ValueOfText(m);
    ValueOfText(n);
  }
}
