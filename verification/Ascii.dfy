/** Hexadecimal digits and lower-casing, for ASCII text. */
module Ascii {
  predicate IsLowerHex(c: char) {
    '0' <= c <= '9' || 'a' <= c <= 'f'
  }

  predicate IsHex(c: char) {
    IsLowerHex(c) || 'A' <= c <= 'F'
  }

  /** ASCII lower-casing. */
  function LowerChar(c: char): char {
    if 'A' <= c <= 'Z' then (c as int + 32) as char else c
  }

  function Lower(s: string): (r: string)
    ensures |r| == |s|
    ensures forall i | 0 <= i < |s| :: r[i] == LowerChar(s[i])
  {
    seq(|s|, i requires 0 <= i < |s| => LowerChar(s[i]))
  }

  /** The value of a hexadecimal digit in either case. */
  function HexValue(c: char): nat
    requires IsHex(c)
  {
    if c <= '9' then c as int - '0' as int
    else if c <= 'F' then c as int - 'A' as int + 10
    else c as int - 'a' as int + 10
  }

  /** The same hexadecimal digits, the case of those in `s` left open. */
  predicate SameHex(s: string, d: string) {
    |s| == |d| && forall i | 0 <= i < |d| :: IsHex(s[i]) && IsHex(d[i]) && HexValue(s[i]) == HexValue(d[i])
  }

  /** Lower-casing yields a digest exactly for texts that have its digits, in any case. */
  lemma LowerIsSameHex(s: string, d: string)
    requires forall c | c in d :: IsLowerHex(c)
    ensures Lower(s) == d <==> SameHex(s, d)
  {
    if Lower(s) == d {
      forall i | 0 <= i < |d| ensures IsHex(s[i]) && IsHex(d[i]) && HexValue(s[i]) == HexValue(d[i]) {
        assert IsLowerHex(d[i]) && LowerChar(s[i]) == d[i];
      }
    }
    if SameHex(s, d) {
      forall i | 0 <= i < |d| ensures Lower(s)[i] == d[i] { assert IsLowerHex(d[i]); }
    }
  }

  /** The digits are the ten decimal ones and six letters. */
  lemma HexDigitsAre(c: char)
    ensures IsLowerHex(c) <==> c in "0123456789abcdef"
    ensures IsHex(c) <==> c in "0123456789abcdefABCDEF"
  {
  }

  lemma LowerHexIsFixed(s: string)
    requires forall c | c in s :: IsLowerHex(c)
    ensures Lower(s) == s
  {
    forall i | 0 <= i < |s| ensures Lower(s)[i] == s[i] { assert IsLowerHex(s[i]); }
  }
}
