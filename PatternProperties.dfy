/**
 * What the grammars of NoRegex::PatternMethods accept, restated without the
 * regular-expression shapes and proved equivalent: digit-and-dot shapes for
 * numbers, value bounds for octets, hours, minutes, months and days, fixed
 * layouts for UUIDs, card numbers and SSNs, label structure for email
 * domains, and the collapse of the nested star in the URL grammar.
 */
module PatternProperties {
  import opened Chars
  import opened Seqs
  import opened Patterns
  import Numerals

  /** Every grammar is anchored and needs at least one character: "" matches no rule. */
  lemma NoRuleMatchesEmpty(r: Rule)
    ensures !Matches(r, "")
  {
  }

  // ---------------------------------------------------------------------------
  // Numbers

  /** Digits and dots only, a digit at both ends, and at most one dot. */
  predicate DecimalShape(t: string) {
    |t| > 0 && IsDigit(t[0]) && IsDigit(t[|t| - 1])
    && (forall i :: 0 <= i < |t| ==> IsDigit(t[i]) || t[i] == '.')
    && (forall i, j :: 0 <= i < j < |t| && t[i] == '.' ==> t[j] != '.')
  }

  /** is_decimal? accepts exactly the digit strings with at most one inner dot. */
  lemma DecimalIff(t: string)
    ensures IsDecimal(t) <==> DecimalShape(t)
  {
    if IsDecimal(t) && !Plus(t, IsDigit) {
      var i :| 0 <= i < |t| && t[i] == '.' && Plus(t[..i], IsDigit) && Plus(t[i + 1..], IsDigit);
      forall k | 0 <= k < |t| && k != i
        ensures IsDigit(t[k])
      {
        if k < i { assert t[k] == t[..i][k]; } else { assert t[k] == t[i + 1..][k - i - 1]; }
      }
      assert t[0] == t[..i][0];
      assert t[|t| - 1] == t[i + 1..][|t| - i - 2];
    }
    if DecimalShape(t) && !Plus(t, IsDigit) {
      var i :| 0 <= i < |t| && !IsDigit(t[i]);
      assert t[i] == '.';
      assert forall k :: 0 <= k < |t| && k != i ==> IsDigit(t[k]);
      var u := t[i + 1..];
      assert Plus(t[..i], IsDigit) by {
        forall k | 0 <= k < i ensures IsDigit(t[..i][k]) { assert t[..i][k] == t[k]; }
      }
      assert Plus(u, IsDigit) by {
        forall k | 0 <= k < |u| ensures IsDigit(u[k]) { assert u[k] == t[i + 1 + k]; }
      }
    }
  }

  /**
   * is_number? accepts exactly: an optional '-', then digits with at most one
   * inner dot (a digit on each side of it).
   */
  lemma NumberIff(s: string)
    ensures IsNumber(s) <==> DecimalShape(s) || (|s| > 0 && s[0] == '-' && DecimalShape(s[1..]))
  {
    DecimalIff(s);
    if |s| > 0 {
      DecimalIff(s[1..]);
    }
  }

  /** Digits, a dot and digits form a decimal, which is a number with or without a leading minus. */
  lemma DecimalOfParts(d: string, f: string)
    requires Plus(d, IsDigit) && Plus(f, IsDigit)
    ensures IsDecimal(d + "." + f) && IsNumber(d + "." + f) && IsNumber("-" + d + "." + f)
  {
    var s := d + "." + f;
    assert s[|d|] == '.' && s[..|d|] == d && s[|d| + 1..] == f;
    var t := "-" + d + "." + f;
    assert t[1..] == s;
  }

  /** A signed digit string is a number. */
  lemma NumberOfDigits(d: string)
    requires Plus(d, IsDigit)
    ensures IsNumber(d) && IsNumber("-" + d)
  {
    assert ("-" + d)[1..] == d;
  }

  lemma NumberAcceptedExamples(a: string, b: string, c: string)
    requires a == "-0.5" && b == "999.99" && c == "-456"
    ensures IsNumber(a) && IsNumber(b) && IsNumber(c)
  {
    DecimalOfParts("0", "5");
    assert a == "-" + "0" + "." + "5";
    DecimalOfParts("999", "99");
    assert b == "999" + "." + "99";
    NumberOfDigits("456");
    assert c == "-" + "456";
  }

  lemma NumberRejectedExamples()
    ensures !IsNumber("1.") && !IsNumber(".5") && !IsNumber("1.2.3") && !IsNumber("+1")
  {
    NumberIff("1.");
    NumberIff(".5");
    NumberIff("1.2.3");
    assert "1.2.3"[1] == '.' && "1.2.3"[3] == '.';
    NumberIff("+1");
  }

  /** is_positive_number? is a digit string without a leading zero (and without a sign). */
  lemma PositiveNumberIff(s: string)
    ensures IsPositiveNumber(s) <==> Plus(s, IsDigit) && s[0] != '0'
  {
    if Plus(s, IsDigit) {
      assert forall k | 0 <= k < |s[1..]| :: s[1..][k] == s[k + 1];
    }
    if IsPositiveNumber(s) {
      assert forall k | 1 <= k < |s| :: s[k] == s[1..][k - 1];
    }
  }

  lemma PositiveNumberExamples()
    ensures IsPositiveNumber("1") && IsPositiveNumber("123") && IsPositiveNumber("999")
    ensures !IsPositiveNumber("0") && !IsPositiveNumber("00123") && !IsPositiveNumber("-5")
  {
    PositiveNumberIff("1");
    PositiveNumberIff("123");
    PositiveNumberIff("999");
  }

  /** How the number grammars nest inside one another. */
  lemma NumberGrammarsNest(s: string)
    ensures IsPositiveNumber(s) ==> IsInteger(s)
    ensures IsInteger(s) ==> IsNumber(s)
    ensures IsDecimal(s) ==> IsNumber(s)
    ensures IsInteger(s) && IsDecimal(s) <==> Plus(s, IsDigit)
  {
    PositiveNumberIff(s);
    DecimalIff(s);
  }

  // ---------------------------------------------------------------------------
  // IPv4

  lemma ValueOfThreeDigits(o: string)
    requires |o| == 3
    ensures Numerals.ValueOf(o, 10)
         == 100 * Numerals.DigitValue(o[0]) + 10 * Numerals.DigitValue(o[1]) + Numerals.DigitValue(o[2])
  {
    assert Numerals.ValueOf(o, 10) == Numerals.ValueOf(o[..2], 10) * 10 + Numerals.DigitValue(o[2]);
    ValueOfTwoDigits(o[..2]);
  }

  lemma ValueOfTwoDigits(o: string)
    requires |o| == 2
    ensures Numerals.ValueOf(o, 10) == 10 * Numerals.DigitValue(o[0]) + Numerals.DigitValue(o[1])
  {
    assert Numerals.ValueOf(o, 10) == Numerals.ValueOf(o[..1], 10) * 10 + Numerals.DigitValue(o[1]);
    assert Numerals.ValueOf(o[..1], 10) == Numerals.ValueOf(o[..1][..0], 10) * 10 + Numerals.DigitValue(o[0]);
    assert o[..1][..0] == [];
  }

  /** An octet is one to three digits whose value is at most 255 (leading zeros allowed). */
  lemma OctetIff(o: string)
    ensures IsOctet(o) <==> 1 <= |o| <= 3 && All(o, IsDigit) && Numerals.ValueOf(o, 10) <= 255
  {
    if |o| == 1 {
      assert o[..0] == [];
    } else if |o| == 2 {
      ValueOfTwoDigits(o);
      assert forall k | 0 <= k < 1 :: o[1..][k] == o[1];
    } else if |o| == 3 {
      ValueOfThreeDigits(o);
      assert forall k | 0 <= k < 2 :: o[1..][k] == o[k + 1];
    }
  }

  lemma OctetHasNoDot(o: string)
    requires IsOctet(o)
    ensures forall j :: 0 <= j < |o| ==> o[j] != '.'
  {
    OctetIff(o);
  }

  /** A string without a dot is a single field. */
  lemma FieldsWithoutDot(s: string)
    requires forall j :: 0 <= j < |s| ==> s[j] != '.'
    ensures Fields(s, '.') == [s]
  {
    assert s[..|s|] == s;
  }

  /** Splitting at the first dot. */
  lemma FieldsAtFirstDot(s: string, k: nat)
    requires k < |s| && s[k] == '.' && forall j :: 0 <= j < k ==> s[j] != '.'
    ensures Fields(s, '.') == [s[..k]] + Fields(s[k + 1..], '.')
  {
  }

  /** n + 1 octets joined by dots: exactly the strings whose dot-separated fields are n + 1 octets. */
  lemma DottedOctetsFields(s: string, n: nat)
    ensures IsDottedOctets(s, n) <==> OctetFields(Fields(s, '.'), n + 1)
  {
    if IsDottedOctets(s, n) {
      DottedOctetsToFields(s, n);
    }
    if OctetFields(Fields(s, '.'), n + 1) {
      FieldsToDottedOctets(s, n);
    }
  }

  /** The dot that ends the first octet of n + 1 dotted octets, n > 0. */
  lemma FirstOctetEnd(s: string, n: nat) returns (i: nat)
    requires n > 0 && IsDottedOctets(s, n)
    ensures i < |s| && s[i] == '.' && IsOctet(s[..i]) && IsDottedOctets(s[i + 1..], n - 1)
  {
    i :| 0 <= i < |s| && s[i] == '.' && IsOctet(s[..i]) && IsDottedOctets(s[i + 1..], n - 1);
  }

  /** An octet before a dot leaves that dot the first one. */
  lemma OctetBeforeDot(s: string, i: nat)
    requires i <= |s| && IsOctet(s[..i])
    ensures forall j :: 0 <= j < i ==> s[j] != '.'
  {
    var o := s[..i];
    OctetHasNoDot(o);
    assert forall j :: 0 <= j < i ==> s[j] == o[j];
  }

  lemma {:induction false} DottedOctetsToFields(s: string, n: nat)
    requires IsDottedOctets(s, n)
    ensures OctetFields(Fields(s, '.'), n + 1)
    decreases n
  {
    if n == 0 {
      OctetHasNoDot(s);
      FieldsWithoutDot(s);
      assert [s][0] == s;
    } else {
      var i := FirstOctetEnd(s, n);
      DottedOctetsToFields(s[i + 1..], n - 1);
      OctetBeforeDot(s, i);
      FieldsAtFirstDot(s, i);
      ConsOctetFields(s[..i], Fields(s[i + 1..], '.'), n);
    }
  }

  lemma {:induction false} FieldsToDottedOctets(s: string, n: nat)
    requires OctetFields(Fields(s, '.'), n + 1)
    ensures IsDottedOctets(s, n)
    decreases n
  {
    var k := IndexOf(s, '.');
    if k == |s| {
      SingleOctetField(s, n);
    } else {
      OctetFieldsAtFirstDot(s, k, n);
      FieldsToDottedOctets(s[k + 1..], n - 1);
      DottedOctetsAt(s, k, n);
    }
  }

  lemma SingleOctetField(s: string, n: nat)
    requires OctetFields(Fields(s, '.'), n + 1) && forall j :: 0 <= j < |s| ==> s[j] != '.'
    ensures n == 0 && IsOctet(s)
  {
    FieldsWithoutDot(s);
    assert Fields(s, '.')[0] == s;
  }

  /** The witness for one more octet: the octet before the dot at k. */
  lemma DottedOctetsAt(s: string, k: nat, n: nat)
    requires n > 0 && k < |s| && s[k] == '.'
    requires IsOctet(s[..k]) && IsDottedOctets(s[k + 1..], n - 1)
    ensures IsDottedOctets(s, n)
  {
  }

  lemma OctetFieldsAtFirstDot(s: string, k: nat, n: nat)
    requires OctetFields(Fields(s, '.'), n + 1)
    requires k == IndexOf(s, '.') && k < |s|
    ensures n > 0 && IsOctet(s[..k]) && OctetFields(Fields(s[k + 1..], '.'), n)
  {
    FieldsAtFirstDot(s, k);
    var f := Fields(s, '.');
    assert f[0] == s[..k] && f[1..] == Fields(s[k + 1..], '.');
    OctetFieldsTail(f, n);
  }

  lemma OctetFieldsTail(f: seq<string>, n: nat)
    requires OctetFields(f, n + 1)
    ensures IsOctet(f[0]) && OctetFields(f[1..], n)
  {
  }

  lemma ConsOctetFields(o: string, g: seq<string>, n: nat)
    requires IsOctet(o) && OctetFields(g, n)
    ensures OctetFields([o] + g, n + 1)
  {
    assert ([o] + g)[1..] == g;
  }

  /** Exactly m fields, each an octet. */
  predicate OctetFields(f: seq<string>, m: nat)
    decreases m
  {
    if m == 0 then f == [] else |f| > 0 && IsOctet(f[0]) && OctetFields(f[1..], m - 1)
  }

  /** is_ipv4? holds exactly when splitting at dots gives four octets. */
  lemma Ipv4Iff(s: string)
    ensures IsIpv4(s) <==> OctetFields(Fields(s, '.'), 4)
  {
    DottedOctetsFields(s, 3);
  }

  /** Four octets joined by dots form an address. */
  lemma Ipv4OfOctets(a: string, b: string, c: string, d: string)
    requires IsOctet(a) && IsOctet(b) && IsOctet(c) && IsOctet(d)
    ensures IsIpv4(a + "." + b + "." + c + "." + d)
  {
    var t1 := c + "." + d;
    DottedOctetsCons(c, d, 0);
    var t2 := b + "." + t1;
    DottedOctetsCons(b, t1, 1);
    DottedOctetsCons(a, t2, 2);
    DotJoinAssoc(a, b, c, d);
  }

  lemma DotJoinAssoc(a: string, b: string, c: string, d: string)
    ensures a + "." + b + "." + c + "." + d == a + "." + (b + "." + (c + "." + d))
  {
  }

  lemma DottedOctetsCons(o: string, t: string, n: nat)
    requires IsOctet(o) && IsDottedOctets(t, n)
    ensures IsDottedOctets(o + "." + t, n + 1)
  {
    var s := o + "." + t;
    assert s[..|o|] == o && s[|o| + 1..] == t;
    DottedOctetsAt(s, |o|, n + 1);
  }

  /** The text before the first dot of dotted octets is an octet. */
  lemma DottedOctetsFirstField(s: string, n: nat, k: nat)
    requires k < |s| && s[k] == '.' && forall j :: 0 <= j < k ==> s[j] != '.'
    ensures IsDottedOctets(s, n) ==> IsOctet(s[..k])
  {
    if IsDottedOctets(s, n) {
      DottedOctetsToFields(s, n);
      FieldsAtFirstDot(s, k);
      assert Fields(s, '.')[0] == s[..k];
    }
  }

  /** A leading number above 255 ("256.1.1.1") makes the whole address invalid. */
  lemma Ipv4RejectsLargeOctet(o: string, t: string)
    requires All(o, IsDigit) && Numerals.ValueOf(o, 10) > 255
    ensures !IsIpv4(o + "." + t)
  {
    var s := o + "." + t;
    OctetIff(o);
    assert s[..|o|] == o;
    assert forall j :: 0 <= j < |o| ==> o[j] != '.';
    DottedOctetsFirstField(s, 3, |o|);
  }

  // ---------------------------------------------------------------------------
  // Time and date

  /** Two decimal digits and the number they denote. */
  predicate TwoDigits(t: string) {
    |t| == 2 && IsDigit(t[0]) && IsDigit(t[1])
  }

  /** is_time_24h? accepts exactly HH:MM with both fields two digits, hour at most 23, minute at most 59. */
  lemma Time24hIff(s: string)
    ensures IsTime24h(s) <==>
      |s| == 5 && s[2] == ':' && TwoDigits(s[..2]) && TwoDigits(s[3..])
      && Numerals.ValueOf(s[..2], 10) <= 23 && Numerals.ValueOf(s[3..], 10) <= 59
  {
    if |s| == 5 {
      ValueOfTwoDigits(s[..2]);
      ValueOfTwoDigits(s[3..]);
    }
  }

  /**
   * is_date_yyyy_mm_dd? accepts exactly a four-digit year, a two-digit month
   * from 1 to 12 and a two-digit day from 1 to 31, joined by '-'. The day is
   * not checked against the month.
   */
  lemma DateIff(s: string)
    ensures IsDateYyyyMmDd(s) <==>
      |s| == 10 && All(s[..4], IsDigit) && s[4] == '-' && s[7] == '-'
      && TwoDigits(s[5..7]) && 1 <= Numerals.ValueOf(s[5..7], 10) <= 12
      && TwoDigits(s[8..]) && 1 <= Numerals.ValueOf(s[8..], 10) <= 31
  {
    if |s| == 10 {
      ValueOfTwoDigits(s[5..7]);
      ValueOfTwoDigits(s[8..]);
    }
  }

  lemma TimeAndDateExamples()
    ensures IsTime24h("00:00") && IsTime24h("23:59") && !IsTime24h("24:00") && !IsTime24h("12:60")
    ensures IsDateYyyyMmDd("2024-01-31") && IsDateYyyyMmDd("2024-02-30")
    ensures !IsDateYyyyMmDd("2024-13-01") && !IsDateYyyyMmDd("2024-00-10") && !IsDateYyyyMmDd("2024-01-32")
  {
  }
}
