/**
 * ASCII character classes and case mapping, as Ruby's regular expressions
 * and String#downcase / #upcase / #capitalize see them for ASCII input.
 *
 *   \d  = '0'..'9'
 *   \w  = letters, digits and '_'
 *   \s  = ' ', '\t', '\n', '\v' (0x0B), '\f' (0x0C), '\r'
 */
module Chars {

  const VerticalTab: char := 11 as char
  const FormFeed: char := 12 as char
  const Nul: char := 0 as char

  predicate IsDigit(c: char) { '0' <= c <= '9' }
  predicate IsUpper(c: char) { 'A' <= c <= 'Z' }
  predicate IsLower(c: char) { 'a' <= c <= 'z' }
  predicate IsLetter(c: char) { IsUpper(c) || IsLower(c) }
  predicate IsAlnum(c: char) { IsLetter(c) || IsDigit(c) }
  predicate IsNonDigit(c: char) { !IsDigit(c) }
  predicate IsNonLetter(c: char) { !IsLetter(c) }

  /** The regular-expression class \w. */
  predicate IsWordChar(c: char) { IsAlnum(c) || c == '_' }

  /** The regular-expression class \s. */
  predicate IsSpace(c: char) {
    c == ' ' || c == '\t' || c == '\n' || c == VerticalTab || c == FormFeed || c == '\r'
  }

  predicate IsNonSpace(c: char) { !IsSpace(c) }

  /** The class [0-9A-Fa-f]. */
  predicate IsHexDigit(c: char) { IsDigit(c) || 'a' <= c <= 'f' || 'A' <= c <= 'F' }

  /** ASCII String#downcase on one character. */
  function ToLower(c: char): (r: char)
    ensures !IsUpper(r)
    ensures IsLetter(c) <==> IsLetter(r)
    ensures IsLetter(c) ==> IsLower(r)
    ensures !IsLetter(c) ==> r == c
  {
    if IsUpper(c) then (c as int - 'A' as int + 'a' as int) as char else c
  }

  /** ASCII String#upcase on one character. */
  function ToUpper(c: char): (r: char)
    ensures !IsLower(r)
    ensures IsLetter(c) <==> IsLetter(r)
    ensures IsLetter(c) ==> IsUpper(r)
    ensures !IsLetter(c) ==> r == c
  {
    if IsLower(c) then (c as int - 'a' as int + 'A' as int) as char else c
  }

  /** String#downcase (ASCII). */
  function Downcase(s: string): (r: string)
    ensures |r| == |s|
    ensures forall i :: 0 <= i < |s| ==> r[i] == ToLower(s[i])
  {
    seq(|s|, i requires 0 <= i < |s| => ToLower(s[i]))
  }

  /** String#upcase (ASCII). */
  function Upcase(s: string): (r: string)
    ensures |r| == |s|
    ensures forall i :: 0 <= i < |s| ==> r[i] == ToUpper(s[i])
  {
    seq(|s|, i requires 0 <= i < |s| => ToUpper(s[i]))
  }

  /** String#capitalize (ASCII): first character upper case, the rest lower case. */
  function Capitalize(s: string): (r: string)
    ensures |r| == |s|
    ensures |s| > 0 ==> r[0] == ToUpper(s[0]) && r[1..] == Downcase(s[1..])
  {
    if s == [] then [] else [ToUpper(s[0])] + Downcase(s[1..])
  }

  lemma DowncaseAppend(a: string, b: string)
    ensures Downcase(a + b) == Downcase(a) + Downcase(b)
  {
  }

  /** Lower-casing after capitalizing is plain lower-casing. */
  lemma DowncaseCapitalize(s: string)
    ensures Downcase(Capitalize(s)) == Downcase(s)
  {
    if s != [] {
      assert s == [s[0]] + s[1..];
      DowncaseAppend([s[0]], s[1..]);
      DowncaseAppend([ToUpper(s[0])], Downcase(s[1..]));
    }
  }

  /** Lower-casing a gives b when it does so character by character. */
  lemma DowncaseTo(a: string, b: string)
    requires |a| == |b| && forall i :: 0 <= i < |a| ==> ToLower(a[i]) == b[i]
    ensures Downcase(a) == b
  {
  }

  /** Capitalizing a gives b when its first character upper-cases and the rest lower-case to b's. */
  lemma CapitalizeTo(a: string, b: string)
    requires |a| == |b| > 0 && ToUpper(a[0]) == b[0]
    requires forall i :: 1 <= i < |a| ==> ToLower(a[i]) == b[i]
    ensures Capitalize(a) == b
  {
    DowncaseTo(a[1..], b[1..]);
    assert b == [b[0]] + b[1..];
  }

  /** Lower-casing leaves a string without capitals unchanged. */
  lemma DowncaseNoUpper(s: string)
    requires forall i :: 0 <= i < |s| ==> !IsUpper(s[i])
    ensures Downcase(s) == s
  {
  }
}
