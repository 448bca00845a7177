/** Numbers written as strings of digits, read from the characters themselves. */
module Numerals {

  /** The value of a digit: 0 to 9, then the letters of either case. */
  function ValueOf(c: char): nat {
    if '0' <= c <= '9' then c as int - '0' as int
    else if 'A' <= c <= 'F' then c as int - 'A' as int + 10
    else if 'a' <= c <= 'f' then c as int - 'a' as int + 10
    else 0
  }

  /** The number a string of digits denotes. */
  function Horner(s: string, radix: nat): nat {
    if s == "" then 0 else Horner(s[..|s| - 1], radix) * radix + ValueOf(s[|s| - 1])
  }

  predicate DigitOf(c: char, radix: nat, uppercase: bool) {
    ('0' <= c <= '9' || (if uppercase then 'A' <= c <= 'F' else 'a' <= c <= 'f')) && ValueOf(c) < radix
  }

  /** The digits of a number, without leading zeros and with letters of one case. */
  predicate Numeral(s: string, number: nat, radix: nat, uppercase: bool) {
    && s != "" && Horner(s, radix) == number
    && (forall i :: 0 <= i < |s| ==> DigitOf(s[i], radix, uppercase))
    && (|s| > 1 ==> s[0] != '0')
  }

  lemma HornerSnoc(s: string, c: char, radix: nat)
    ensures Horner(s + [c], radix) == Horner(s, radix) * radix + ValueOf(c)
  {
    assert (s + [c])[..|s + [c]| - 1] == s;
  }

  lemma OneDigit(c: char, radix: nat, uppercase: bool)
    requires DigitOf(c, radix, uppercase)
    ensures Numeral([c], ValueOf(c), radix, uppercase)
  {
    HornerSnoc("", c, radix);
    assert [c] == "" + [c];
  }

  lemma NumeralGrows(s: string, n: nat, c: char, radix: nat, uppercase: bool)
    requires Numeral(s, n, radix, uppercase) && s[0] != '0' && DigitOf(c, radix, uppercase)
    ensures Numeral(s + [c], n * radix + ValueOf(c), radix, uppercase) && (s + [c])[0] != '0'
  {
    hide DigitOf, ValueOf, Horner;
    HornerSnoc(s, c, radix);
  }

  /** The text of a number starts with `z` zeros, as many as the minimum length asks for, then the sign, then the numeral. */
  ghost predicate Laid(out: string, z: nat, number: nat, negative: bool, radix: nat, uppercase: bool, minDigit: int) {
    var from := if negative then z + 1 else z;
    && from <= |out| && (forall i :: 0 <= i < z ==> out[i] == '0') && (negative ==> out[z] == '-')
    && Numeral(out[from..], number, radix, uppercase)
    && z == if minDigit > |out| - from then minDigit - (|out| - from) else 0
  }

  ghost predicate Prints(out: string, number: nat, negative: bool, radix: nat, uppercase: bool, minDigit: int) {
    exists z :: Laid(out, z, number, negative, radix, uppercase, minDigit)
  }

  /** The digits among the characters, in their order. */
  function DigitsIn(s: string): string {
    if s == "" then ""
    else DigitsIn(s[..|s| - 1]) + (if '0' <= s[|s| - 1] <= '9' then [s[|s| - 1]] else "")
  }

  lemma DigitsSnoc(s: string, c: char)
    ensures DigitsIn(s + [c]) == if '0' <= c <= '9' then DigitsIn(s) + [c] else DigitsIn(s)
  {
    assert (s + [c])[..|s + [c]| - 1] == s;
  }
}
