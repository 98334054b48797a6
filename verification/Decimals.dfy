/** Decimal notation: printing natural numbers and reading them back. */
module Decimals {
  function Digit(n: nat): char
    requires n < 10
  {
    ('0' as int + n) as char
  }

  /** The decimal digits of a number, without leading zeros. */
  function Decimal(n: nat): string {
    if n < 10 then [Digit(n)] else Decimal(n / 10) + [Digit(n % 10)]
  }

  predicate IsDigit(c: char) {
    '0' <= c <= '9'
  }

  predicate AllDigits(s: string) {
    forall i | 0 <= i < |s| :: IsDigit(s[i])
  }

  /** The number that a text of decimal digits writes. */
  function Value(s: string): nat
    requires AllDigits(s)
  {
    if s == "" then 0
    else
      assert IsDigit(s[|s| - 1]);
      10 * Value(s[..|s| - 1]) + (s[|s| - 1] as int - '0' as int)
  }

  /** Decimal digits without a needless leading zero. */
  predicate Canonical(s: string) {
    s != "" && AllDigits(s) && (s[0] == '0' ==> |s| == 1)
  }

  lemma ValueOfMore(s: string, n: nat)
    requires AllDigits(s) && n < 10
    ensures AllDigits(s + [Digit(n)]) && Value(s + [Digit(n)]) == 10 * Value(s) + n
  {
    assert (s + [Digit(n)])[..|s|] == s;
  }

  /** Printing a number and reading it back. */
  lemma {:induction false} DecimalReadsBack(n: nat)
    ensures Canonical(Decimal(n)) && Value(Decimal(n)) == n
    ensures n > 0 ==> Decimal(n)[0] != '0'
  {
    if n < 10 {
      ValueOfMore("", n);
      assert "" + [Digit(n)] == Decimal(n);
    } else {
      DecimalReadsBack(n / 10);
      ValueOfMore(Decimal(n / 10), n % 10);
    }
  }

  /** Reading a canonical text and printing it again. */
  lemma {:induction false} ValuePrintsBack(s: string)
    requires Canonical(s)
    ensures Decimal(Value(s)) == s && (s[0] != '0' ==> Value(s) > 0)
  {
    var most, last := s[..|s| - 1], s[|s| - 1];
    assert IsDigit(last);
    var n := last as int - '0' as int;
    assert last == Digit(n) && s == most + [last];
    ValueOfMore(most, n);
    if most != "" {
      assert most[0] == s[0];
      ValuePrintsBack(most);
    }
  }
}
