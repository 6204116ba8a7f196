/**
 * Digit strings and their values: Ruby's Integer#to_s(base) and the value
 * of a string of digits read back in a base.
 */
module Numerals {
  import opened Chars

  /** The digits Integer#to_s(base) uses, lower case, for bases up to 16. */
  const DigitChars: string := "0123456789abcdef"

  /** Value of one digit: '0'..'9' are 0..9; 'a'..'f' and 'A'..'F' are 10..15. */
  function DigitValue(c: char): nat {
    if IsDigit(c) then c as nat - '0' as nat
    else if 'a' <= c <= 'f' then c as nat - 'a' as nat + 10
    else if 'A' <= c <= 'F' then c as nat - 'A' as nat + 10
    else 0
  }

  /** c is a digit of the given base, in either case. */
  predicate IsBaseDigit(c: char, base: nat) {
    IsHexDigit(c) && DigitValue(c) < base
  }

  /** The number a string of base digits denotes, most significant digit first. */
  function ValueOf(s: string, base: nat): nat
    decreases |s|
  {
    if s == [] then 0 else ValueOf(s[..|s| - 1], base) * base + DigitValue(s[|s| - 1])
  }

  /** The digit character for d, and what it reads back as. */
  lemma DigitCharValue(d: nat)
    requires d < 16
    ensures IsHexDigit(DigitChars[d]) && !IsUpper(DigitChars[d])
    ensures DigitValue(DigitChars[d]) == d
    ensures DigitChars[d] == '0' <==> d == 0
  {
  }

  lemma DivModFacts(n: nat, base: nat)
    requires 2 <= base <= n
    ensures 0 < n / base < n && n % base < base
    ensures (n / base) * base + n % base == n
  {
  }

  /** Integer#to_s(base) of a non-negative integer: its digits, without leading zeros. */
  function DigitsOf(n: nat, base: nat): (r: string)
    requires 2 <= base <= 16
    ensures |r| > 0
    ensures forall i :: 0 <= i < |r| ==> IsBaseDigit(r[i], base) && !IsUpper(r[i])
    ensures r[0] == '0' ==> n == 0
    decreases n
  {
    if n < base then
      DigitCharValue(n);
      [DigitChars[n]]
    else
      DivModFacts(n, base);
      DigitCharValue(n % base);
      DigitsOf(n / base, base) + [DigitChars[n % base]]
  }

  /** Reading back the digits of n gives n. */
  lemma {:induction false} ValueOfDigitsOf(n: nat, base: nat)
    requires 2 <= base <= 16
    ensures ValueOf(DigitsOf(n, base), base) == n
    decreases n
  {
    var r := DigitsOf(n, base);
    if n < base {
      DigitCharValue(n);
      assert r[..0] == [];
    } else {
      DivModFacts(n, base);
      DigitCharValue(n % base);
      ValueOfDigitsOf(n / base, base);
      assert r[..|r| - 1] == DigitsOf(n / base, base);
    }
  }

  /** Integer#to_s(base): a '-' in front of the digits of the magnitude for a negative number. */
  function IntToString(n: int, base: nat): (r: string)
    requires 2 <= base <= 16
    ensures |r| > 0
    ensures n < 0 <==> r[0] == '-'
  {
    if n < 0 then "-" + DigitsOf(-n, base) else DigitsOf(n, base)
  }

  /** Integer#to_s (base 10). */
  function Decimal(n: int): string {
    IntToString(n, 10)
  }
}
