/**
 * The Integer extensions of NoRegex: sign and parity checks, currency,
 * thousands grouping, hexadecimal and binary renderings, and number words.
 * Integers are Ruby's arbitrary-precision integers, so Dafny's unbounded
 * `int` models them without wrap-around.
 */
module NumericExtensions {
  import opened Chars
  import opened Seqs
  import opened Numerals
  import StringExtensions

  // ---------------------------------------------------------------------------
  // Sign and parity

  /** Integer#is_positive? */
  predicate IsPositive(n: int) { n > 0 }

  /** Integer#is_negative? */
  predicate IsNegative(n: int) { n < 0 }

  /** Integer#is_zero? */
  predicate IsZero(n: int) { n == 0 }

  /**
   * Integer#is_even?: `(n % 2).zero?`. Ruby's `%` takes the sign of the
   * divisor, so for the divisor 2 it agrees with Dafny's Euclidean `%`.
   */
  predicate IsEven(n: int) { n % 2 == 0 }

  /** Integer#is_odd?: the negation of is_even?. */
  predicate IsOdd(n: int) { !IsEven(n) }

  /** Integer#abs. */
  function Abs(n: int): nat {
    if n < 0 then -n else n
  }

  /** Exactly one of is_positive?, is_negative? and is_zero? holds. */
  lemma SignTrichotomy(n: int)
    ensures IsPositive(n) || IsNegative(n) || IsZero(n)
    ensures !(IsPositive(n) && IsNegative(n)) && !(IsPositive(n) && IsZero(n)) && !(IsNegative(n) && IsZero(n))
    ensures IsNegative(n) <==> IsPositive(-n)
  {
  }

  /** is_even? means divisible by two, negatives included; consecutive integers alternate. */
  lemma ParityIff(n: int)
    ensures IsEven(n) <==> exists k :: n == 2 * k
    ensures IsOdd(n) <==> exists k :: n == 2 * k + 1
    ensures IsEven(n) <==> IsEven(-n)
    ensures IsEven(n) <==> IsOdd(n + 1)
  {
    var k := n / 2;
    assert n == 2 * k + n % 2;
    if IsEven(n) {
      assert n == 2 * k;
    } else {
      assert n == 2 * k + 1;
    }
    if exists j :: n == 2 * j {
      var j :| n == 2 * j;
      assert n % 2 == 0;
    }
    if exists j :: n == 2 * j + 1 {
      var j :| n == 2 * j + 1;
      assert n % 2 == 1;
    }
    assert -n == 2 * (-k) - n % 2;
  }

  // ---------------------------------------------------------------------------
  // Reading a rendering back

  /** Integer#to_s(base) reads back as n: the digits alone, or '-' and the digits of -n. */
  lemma IntToStringReadsBack(n: int, base: nat)
    requires 2 <= base <= 16
    ensures var r := IntToString(n, base);
      (n >= 0 ==> ValueOf(r, base) == n && All(r, c => IsBaseDigit(c, base)))
      && (n < 0 ==> r[0] == '-' && ValueOf(r[1..], base) == -n && All(r[1..], c => IsBaseDigit(c, base)))
  {
    if n >= 0 {
      ValueOfDigitsOf(n, base);
    } else {
      ValueOfDigitsOf(-n, base);
      assert IntToString(n, base)[1..] == DigitsOf(-n, base);
    }
  }

  // ---------------------------------------------------------------------------
  // to_currency

  /** Integer#to_currency(symbol): the symbol (by default "$"), then n.to_s. */
  function ToCurrency(n: int, symbol: string): string {
    symbol + Decimal(n)
  }

  /** The symbol comes first, and what follows reads back as n, with no fractional part. */
  lemma CurrencyReadsBack(n: int, symbol: string)
    ensures var r := ToCurrency(n, symbol);
      r[..|symbol|] == symbol && r[|symbol|..] == Decimal(n)
      && (n >= 0 ==> ValueOf(r[|symbol|..], 10) == n && All(r[|symbol|..], IsDigit))
      && (n < 0 ==> r[|symbol|] == '-' && ValueOf(r[|symbol| + 1..], 10) == -n)
  {
    var r := ToCurrency(n, symbol);
    assert r[..|symbol|] == symbol && r[|symbol|..] == Decimal(n);
    IntToStringReadsBack(n, 10);
    if n < 0 {
      assert r[|symbol| + 1..] == Decimal(n)[1..];
    }
  }

  lemma CurrencyExample(r: string)
    requires r == ToCurrency(5, "$")
    ensures r == "$5"
  {
    DigitCharValue(5);
  }

  // ---------------------------------------------------------------------------
  // to_hex and to_binary

  /** Integer#to_hex: "0x", then to_s(16) in upper case; a '-' lands after the prefix. */
  function ToHex(n: int): string {
    "0x" + Upcase(IntToString(n, 16))
  }

  /** Integer#to_binary: "0b", then to_s(2). */
  function ToBinary(n: int): string {
    "0b" + IntToString(n, 2)
  }

  /** Upper-casing hexadecimal digits keeps their value. */
  lemma {:induction false} ValueOfUpcase(s: string)
    requires All(s, IsHexDigit)
    ensures ValueOf(Upcase(s), 16) == ValueOf(s, 16)
    decreases |s|
  {
    if s != [] {
      var t := s[..|s| - 1];
      ValueOfUpcase(t);
      assert Upcase(s)[..|s| - 1] == Upcase(t);
    }
  }

  /**
   * to_hex is "0x" and upper-case hexadecimal digits that read back as |n|,
   * with '-' between the prefix and the digits when n is negative.
   */
  lemma HexReadsBack(n: int)
    ensures var r := ToHex(n);
      |r| > 2 && r[..2] == "0x" && (r[2] == '-' <==> n < 0)
      && var d := if n < 0 then r[3..] else r[2..];
      ValueOf(d, 16) == (if n < 0 then -n else n)
      && forall i :: 0 <= i < |d| ==> IsHexDigit(d[i]) && !IsLower(d[i])
  {
    var s := IntToString(n, 16);
    var r := ToHex(n);
    assert r[..2] == "0x" && r[2..] == Upcase(s);
    IntToStringReadsBack(n, 16);
    if n < 0 {
      assert r[3..] == Upcase(s[1..]);
      UpcaseHexDigits(s[1..]);
    } else {
      UpcaseHexDigits(s);
    }
  }

  lemma UpcaseHexDigits(e: string)
    requires All(e, c => IsBaseDigit(c, 16))
    ensures ValueOf(Upcase(e), 16) == ValueOf(e, 16)
    ensures forall i :: 0 <= i < |e| ==> IsHexDigit(Upcase(e)[i]) && !IsLower(Upcase(e)[i])
  {
    ValueOfUpcase(e);
  }

  lemma HexExample(r: string)
    requires r == ToHex(-255)
    ensures r == "0x-FF"
  {
    DivModFacts(255, 16);
    DigitCharValue(15);
  }

  /** to_binary is "0b" and binary digits that read back as |n|, '-' after the prefix when n is negative. */
  lemma BinaryReadsBack(n: int)
    ensures var r := ToBinary(n);
      |r| > 2 && r[..2] == "0b" && (r[2] == '-' <==> n < 0)
      && var d := if n < 0 then r[3..] else r[2..];
      ValueOf(d, 2) == (if n < 0 then -n else n)
      && forall i :: 0 <= i < |d| ==> d[i] == '0' || d[i] == '1'
  {
    var s := IntToString(n, 2);
    var r := ToBinary(n);
    assert r[2..] == s;
    IntToStringReadsBack(n, 2);
    var d := if n < 0 then r[3..] else r[2..];
    forall i | 0 <= i < |d| ensures d[i] == '0' || d[i] == '1' {
      BinaryDigit(d[i]);
    }
  }

  lemma BinaryDigit(c: char)
    requires IsBaseDigit(c, 2)
    ensures c == '0' || c == '1'
  {
  }

  // ---------------------------------------------------------------------------
  // to_formatted

  /**
   * `gsub(/(\d{3})(?=\d)/, '\1,')` on the reversed to_s, scanned left to
   * right: three digits with a fourth after them get a ',' appended and the
   * scan resumes after the three; anything else is copied one character at
   * a time.
   */
  function CommaScan(s: string): (r: string)
    decreases |s|
  {
    if |s| >= 4 && IsDigit(s[0]) && IsDigit(s[1]) && IsDigit(s[2]) && IsDigit(s[3]) then
      s[..3] + "," + CommaScan(s[3..])
    else if s == [] then []
    else [s[0]] + CommaScan(s[1..])
  }

  /** Integer#to_formatted: reverse to_s, insert the commas, reverse back. */
  function ToFormatted(n: int): string {
    Reverse(CommaScan(Reverse(Decimal(n))))
  }

  /** Reference grouping: the digits in threes counted from the right, joined by ','. */
  function GroupThousands(d: string): string
    decreases |d|
  {
    if |d| <= 3 then d else GroupThousands(d[..|d| - 3]) + "," + d[|d| - 3..]
  }

  /** What the scan makes of reversed digits: the same grouping, counted from the left. */
  function GroupFromLeft(e: string): string
    decreases |e|
  {
    if |e| <= 3 then e else e[..3] + "," + GroupFromLeft(e[3..])
  }

  /** At most three digits, then at most a sign: the scan copies them. */
  lemma {:induction false} ScanShort(e: string, sign: string)
    requires |e| <= 3 && All(e, IsDigit) && (sign == "" || sign == "-")
    ensures CommaScan(e + sign) == e + sign
    decreases |e|
  {
    if e == [] {
      assert e + sign == sign;
      if sign == "-" {
        assert CommaScan(sign) == [sign[0]] + CommaScan([]);
      }
    } else {
      var s := e + sign;
      assert s[0] == e[0] && s[1..] == e[1..] + sign;
      assert !(|s| >= 4 && IsDigit(s[3]));
      ScanShort(e[1..], sign);
      assert e + sign == [e[0]] + (e[1..] + sign);
    }
  }

  /** Reversed digits, then at most a sign: the scan groups the digits and copies the sign. */
  lemma {:induction false} ScanDigits(e: string, sign: string)
    requires All(e, IsDigit) && (sign == "" || sign == "-")
    ensures CommaScan(e + sign) == GroupFromLeft(e) + sign
    decreases |e|
  {
    if |e| <= 3 {
      ScanShort(e, sign);
    } else {
      var s := e + sign;
      assert s[..3] == e[..3] && s[3..] == e[3..] + sign;
      assert IsDigit(s[0]) && IsDigit(s[1]) && IsDigit(s[2]) && IsDigit(s[3]);
      ScanDigits(e[3..], sign);
      AppendAssoc(e[..3] + ",", GroupFromLeft(e[3..]), sign);
    }
  }

  /** Grouping from the left and reversing is grouping the reversed digits from the right. */
  lemma {:induction false} GroupFromLeftReversed(e: string)
    ensures Reverse(GroupFromLeft(e)) == GroupThousands(Reverse(e))
    decreases |e|
  {
    if |e| > 3 {
      var a, b := e[..3], e[3..];
      GroupFromLeftReversed(b);
      ReverseAppend(a + ",", GroupFromLeft(b));
      ReverseAppend(a, ",");
      var d := Reverse(e);
      assert e == a + b;
      ReverseAppend(a, b);
      assert d[..|d| - 3] == Reverse(b) && d[|d| - 3..] == Reverse(a);
    }
  }

  /** to_formatted is the sign of n, then the digits of |n| grouped in threes from the right. */
  lemma FormattedIsGrouped(n: int)
    ensures ToFormatted(n) == (if n < 0 then "-" else "") + GroupThousands(DigitsOf(if n < 0 then -n else n, 10))
  {
    var d := DigitsOf(if n < 0 then -n else n, 10);
    var sign: string := if n < 0 then "-" else "";
    assert Decimal(n) == sign + d;
    ReverseAppend(sign, d);
    assert Reverse(sign) == sign;
    assert All(Reverse(d), IsDigit);
    ScanDigits(Reverse(d), sign);
    ReverseAppend(GroupFromLeft(Reverse(d)), sign);
    GroupFromLeftReversed(Reverse(d));
    ReverseReverse(d);
  }

  predicate IsNotComma(c: char) { c != ',' }

  /**
   * The layout of grouped digits: a ',' exactly at the positions a multiple
   * of four from the end, a digit everywhere else. So the first group has
   * one to three digits and every later group exactly three.
   */
  predicate GroupedLayout(r: string) {
    |r| > 0
    && (forall i :: 0 <= i < |r| ==> (r[i] == ',' <==> (|r| - i) % 4 == 0))
    && (forall i :: 0 <= i < |r| && r[i] != ',' ==> IsDigit(r[i]))
  }

  /** Grouping a non-empty digit string gives that layout and adds (|d| - 1) / 3 commas. */
  lemma {:induction false} GroupThousandsLayout(d: string)
    requires |d| > 0 && All(d, IsDigit)
    ensures GroupedLayout(GroupThousands(d))
    ensures |GroupThousands(d)| == |d| + (|d| - 1) / 3
    decreases |d|
  {
    if |d| > 3 {
      var p, t := d[..|d| - 3], d[|d| - 3..];
      assert All(p, IsDigit) && All(t, IsDigit) by {
        forall i | 0 <= i < |p| ensures IsDigit(p[i]) { assert p[i] == d[i]; }
        forall i | 0 <= i < |t| ensures IsDigit(t[i]) { assert t[i] == d[|d| - 3 + i]; }
      }
      GroupThousandsLayout(p);
      GroupedAppend(GroupThousands(p), t);
    }
  }

  /** A layout followed by ',' and three digits is again a layout. */
  lemma GroupedAppend(g: string, t: string)
    requires GroupedLayout(g) && |t| == 3 && All(t, IsDigit)
    ensures GroupedLayout(g + "," + t)
  {
    var r := g + "," + t;
    forall i | 0 <= i < |r|
      ensures (r[i] == ',' <==> (|r| - i) % 4 == 0)
      ensures r[i] != ',' ==> IsDigit(r[i])
    {
      if i < |g| {
        assert r[i] == g[i] && |r| - i == (|g| - i) + 4;
      } else if i > |g| {
        assert r[i] == t[i - |g| - 1];
      }
    }
  }

  /** Deleting the commas of a grouping gives back the digits. */
  lemma {:induction false} GroupThousandsDropCommas(d: string)
    requires All(d, IsDigit)
    ensures Filter(GroupThousands(d), IsNotComma) == d
    decreases |d|
  {
    if |d| <= 3 {
      FilterKeepsAll(d, IsNotComma);
    } else {
      var p, t := d[..|d| - 3], d[|d| - 3..];
      GroupThousandsDropCommas(p);
      FilterAppend(GroupThousands(p) + ",", t, IsNotComma);
      FilterAppend(GroupThousands(p), ",", IsNotComma);
      FilterKeepsAll(t, IsNotComma);
      assert Filter(",", IsNotComma) == [];
      assert p + [] + t == d;
    }
  }

  /** Deleting the commas of to_formatted gives back to_s. */
  lemma FormattedDropsCommas(n: int)
    ensures Filter(ToFormatted(n), IsNotComma) == Decimal(n)
  {
    var d := DigitsOf(if n < 0 then -n else n, 10);
    var sign: string := if n < 0 then "-" else "";
    FormattedIsGrouped(n);
    FilterAppend(sign, GroupThousands(d), IsNotComma);
    FilterKeepsAll(sign, IsNotComma);
    GroupThousandsDropCommas(d);
  }

  /** After the sign, to_formatted has the grouped layout: 1 to 3 digits, then groups of exactly 3. */
  lemma FormattedLayout(n: int)
    ensures var r := ToFormatted(n);
      (n < 0 <==> (|r| > 0 && r[0] == '-'))
      && GroupedLayout(if n < 0 then r[1..] else r)
  {
    var d := DigitsOf(if n < 0 then -n else n, 10);
    FormattedIsGrouped(n);
    GroupThousandsLayout(d);
    var r := ToFormatted(n);
    if n < 0 {
      assert r[1..] == GroupThousands(d);
    } else {
      assert r == GroupThousands(d);
      assert r[0] != '-' by {
        assert (|r| - 0) % 4 != 0 || r[0] == ',';
      }
    }
  }

  /** The digits of 1234 and of 123. */
  lemma DecimalDigitsExamples()
    ensures DigitsOf(1234, 10) == "1234" && DigitsOf(123, 10) == "123"
  {
    DigitCharValue(1);
    DigitCharValue(2);
    DigitCharValue(3);
    DigitCharValue(4);
    assert DigitsOf(1, 10) == "1";
    assert DigitsOf(12, 10) == "1" + "2";
    assert DigitsOf(123, 10) == "1" + "2" + "3";
    assert DigitsOf(1234, 10) == "1" + "2" + "3" + "4";
  }

  lemma FormattedExamples(a: string, b: string)
    requires a == ToFormatted(-1234) && b == ToFormatted(-123)
    ensures a == "-1,234" && b == "-123"
  {
    DecimalDigitsExamples();
    FormattedIsGrouped(-1234);
    FormattedIsGrouped(-123);
    var d: string := "1234";
    assert d[..|d| - 3] == "1" && d[|d| - 3..] == "234";
  }

  // ---------------------------------------------------------------------------
  // to_words

  const OnesWords: seq<string> := ["", "one", "two", "three", "four", "five", "six", "seven", "eight", "nine"]
  const TeensWords: seq<string> :=
    ["ten", "eleven", "twelve", "thirteen", "fourteen", "fifteen", "sixteen", "seventeen", "eighteen", "nineteen"]
  const TensWords: seq<string> := ["", "", "twenty", "thirty", "forty", "fifty", "sixty", "seventy", "eighty", "ninety"]

  /** `ones[k]` interpolated into a string: past the end of the table Ruby reads nil, which interpolates as "". */
  function OnesAt(k: nat): string {
    if k < |OnesWords| then OnesWords[k] else ""
  }

  /**
   * Integer#to_words: words are collected in `result` while `num` is cut
   * down (hundreds, then tens or teens, then ones), joined by spaces and
   * stripped, and "negative " goes in front for a negative receiver.
   */
  method ToWords(n: int) returns (w: string)
    ensures w == Words(n)
  {
    if n == 0 {
      return "zero";
    }
    var num := Abs(n);
    ghost var m := num;
    var result: seq<string> := [];
    if num >= 100 {
      result := result + [OnesAt(num / 100) + " hundred"];
      num := num % 100;
    }
    ghost var head, r := result, num;
    assert r == m % 100;
    if num >= 20 {
      result := result + [TensWords[num / 10]];
      num := num % 10;
    } else if num >= 10 {
      result := result + [TeensWords[num - 10]];
      num := 0;
    }
    if num > 0 {
      result := result + [OnesWords[num]];
    }
    ghost var tail := result[|head|..];
    assert result == head + tail;
    CollectedTail(r, tail);
    JoinedReading(m, head, tail);
    var word := StringExtensions.Strip(Join(result, " "));
    assert word == MagnitudeWords(Abs(n));
    w := if n < 0 then "negative " + word else word;
  }

  /** The words collected for the last two digits r join to the reading of r. */
  lemma CollectedTail(r: nat, tail: seq<string>)
    requires r < 100
    requires r >= 20 && r % 10 != 0 ==> tail == [TensWords[r / 10], OnesWords[r % 10]]
    requires r >= 20 && r % 10 == 0 ==> tail == [TensWords[r / 10]]
    requires 10 <= r < 20 ==> tail == [TeensWords[r - 10]]
    requires 0 < r < 10 ==> tail == [OnesWords[r]]
    requires r == 0 ==> tail == []
    ensures r == 0 ==> tail == []
    ensures r != 0 ==> tail != [] && Join(tail, " ") == UnderHundred(r)
  {
    if r >= 20 && r % 10 != 0 {
      JoinCons(TensWords[r / 10], [OnesWords[r % 10]], " ");
    }
  }

  /** Joining the collected words and stripping gives the reference reading of m. */
  lemma JoinedReading(m: nat, head: seq<string>, tail: seq<string>)
    requires m >= 1
    requires head == if m >= 100 then [OnesAt(m / 100) + " hundred"] else []
    requires m % 100 == 0 ==> tail == []
    requires m % 100 != 0 ==> tail != [] && Join(tail, " ") == UnderHundred(m % 100)
    ensures StringExtensions.Strip(Join(head + tail, " ")) == MagnitudeWords(m)
  {
    var w := MagnitudeWords(m);
    MagnitudeEnds(m);
    if m < 1000 {
      JoinedUnderThousand(m, head, tail);
      StringExtensions.StripUnchanged(w);
    } else {
      JoinedPastTable(m, head, tail);
      StringExtensions.StripLeadingSpace(w);
    }
  }

  /** The reading of m >= 1 neither starts nor ends with a character strip removes. */
  lemma MagnitudeEnds(m: nat)
    requires m >= 1
    ensures var w := MagnitudeWords(m);
      |w| > 0 && !StringExtensions.IsStripped(w[0]) && !StringExtensions.IsStripped(w[|w| - 1])
  {
    MagnitudeSpoken(m);
  }

  lemma JoinedUnderThousand(m: nat, head: seq<string>, tail: seq<string>)
    requires 1 <= m < 1000
    requires head == if m >= 100 then [OnesAt(m / 100) + " hundred"] else []
    requires m % 100 == 0 ==> tail == []
    requires m % 100 != 0 ==> tail != [] && Join(tail, " ") == UnderHundred(m % 100)
    ensures Join(head + tail, " ") == MagnitudeWords(m)
  {
    if m < 100 {
      assert head + tail == tail;
      assert m / 100 == 0 && m % 100 == m;
    } else {
      JoinedHundreds(m, head, tail);
    }
  }

  lemma JoinedHundreds(m: nat, head: seq<string>, tail: seq<string>)
    requires 100 <= m < 1000
    requires head == [OnesAt(m / 100) + " hundred"]
    requires m % 100 == 0 ==> tail == []
    requires m % 100 != 0 ==> tail != [] && Join(tail, " ") == UnderHundred(m % 100)
    ensures Join(head + tail, " ") == MagnitudeWords(m)
  {
    var x := OnesAt(m / 100) + " hundred";
    if m % 100 != 0 {
      JoinCons(x, tail, " ");
    } else {
      assert head + tail == [x];
    }
  }

  lemma JoinedPastTable(m: nat, head: seq<string>, tail: seq<string>)
    requires m >= 1000
    requires head == [OnesAt(m / 100) + " hundred"]
    requires m % 100 == 0 ==> tail == []
    requires m % 100 != 0 ==> tail != [] && Join(tail, " ") == UnderHundred(m % 100)
    ensures Join(head + tail, " ") == " " + MagnitudeWords(m)
  {
    var x := OnesAt(m / 100) + " hundred";
    assert x == " " + "hundred";
    if m % 100 != 0 {
      JoinCons(x, tail, " ");
      AppendAssoc(" ", "hundred" + " ", UnderHundred(m % 100));
      AppendAssoc(" ", "hundred", " ");
    } else {
      assert head + tail == [x];
    }
  }

  lemma JoinCons(x: string, tail: seq<string>, sep: string)
    requires tail != []
    ensures Join([x] + tail, sep) == x + sep + Join(tail, sep)
  {
    assert ([x] + tail)[0] == x && ([x] + tail)[1..] == tail;
  }

  /** Reference reading of a number: "zero", or "negative " and the magnitude, or the magnitude. */
  function Words(n: int): string {
    if n == 0 then "zero"
    else if n < 0 then "negative " + MagnitudeWords(Abs(n))
    else MagnitudeWords(n)
  }

  /** m >= 1 read as "<h> hundred", then the words for m % 100 when not zero. */
  function MagnitudeWords(m: nat): string
    requires m >= 1
  {
    var h, r := m / 100, m % 100;
    if h == 0 then UnderHundred(r)
    else if r == 0 then HundredsWords(h)
    else HundredsWords(h) + " " + UnderHundred(r)
  }

  /** "<ones> hundred"; from 1000 on the ones table has no entry and only "hundred" is left. */
  function HundredsWords(h: nat): string
    requires h >= 1
  {
    if h < 10 then OnesWords[h] + " hundred" else "hundred"
  }

  /** 1 to 99 in words: a ones word, a teen, a tens word, or a tens word and a ones word. */
  function UnderHundred(r: nat): string
    requires 1 <= r < 100
  {
    if r < 10 then OnesWords[r]
    else if r < 20 then TeensWords[r - 10]
    else if r % 10 == 0 then TensWords[r / 10]
    else TensWords[r / 10] + " " + OnesWords[r % 10]
  }

  // ---------------------------------------------------------------------------
  // Properties of the words

  /** The letters the tables use: lower case, and never 'd' (of "hundred") or 'z' (of "zero"). */
  predicate IsTableChar(c: char) { IsLower(c) && c != 'd' && c != 'z' }

  predicate TableWord(w: string) {
    |w| > 0 && forall i :: 0 <= i < |w| ==> IsTableChar(w[i])
  }

  lemma OnesTable(k: nat)
    requires 1 <= k < 10
    ensures TableWord(OnesWords[k])
  {
    var w := OnesWords[k];
    forall i | 0 <= i < |w| ensures IsTableChar(w[i]) {
      if k == 1 { assert w == "one"; }
      else if k == 2 { assert w == "two"; }
      else if k == 3 { assert w == "three"; }
      else if k == 4 { assert w == "four"; }
      else if k == 5 { assert w == "five"; }
      else if k == 6 { assert w == "six"; }
      else if k == 7 { assert w == "seven"; }
      else if k == 8 { assert w == "eight"; }
      else { assert w == "nine"; }
    }
  }

  lemma TeensTable(k: nat)
    requires k < 10
    ensures TableWord(TeensWords[k])
  {
    var w := TeensWords[k];
    forall i | 0 <= i < |w| ensures IsTableChar(w[i]) {
      if k == 0 { assert w == "ten"; }
      else if k == 1 { assert w == "eleven"; }
      else if k == 2 { assert w == "twelve"; }
      else if k == 3 { assert w == "thirteen"; }
      else if k == 4 { assert w == "fourteen"; }
      else if k == 5 { assert w == "fifteen"; }
      else if k == 6 { assert w == "sixteen"; }
      else if k == 7 { assert w == "seventeen"; }
      else if k == 8 { assert w == "eighteen"; }
      else { assert w == "nineteen"; }
    }
  }

  lemma TensTable(k: nat)
    requires 2 <= k < 10
    ensures TableWord(TensWords[k])
  {
    var w := TensWords[k];
    forall i | 0 <= i < |w| ensures IsTableChar(w[i]) {
      if k == 2 { assert w == "twenty"; }
      else if k == 3 { assert w == "thirty"; }
      else if k == 4 { assert w == "forty"; }
      else if k == 5 { assert w == "fifty"; }
      else if k == 6 { assert w == "sixty"; }
      else if k == 7 { assert w == "seventy"; }
      else if k == 8 { assert w == "eighty"; }
      else { assert w == "ninety"; }
    }
  }

  /**
   * Spoken text: lower-case words separated by single spaces, with no space
   * at either end.
   */
  predicate Spoken(w: string) {
    |w| > 0 && IsLower(w[0]) && IsLower(w[|w| - 1])
    && forall i :: 0 <= i < |w| ==> SpokenChar(w, i)
  }

  /** w[i] is a lower-case letter, or a space that does not follow a space. */
  predicate SpokenChar(w: string, i: nat)
    requires i < |w|
  {
    IsLower(w[i]) || (w[i] == ' ' && (i > 0 ==> w[i - 1] != ' '))
  }

  /** The character c does not occur in w. */
  predicate Lacks(w: string, c: char) {
    forall i :: 0 <= i < |w| ==> w[i] != c
  }

  lemma TableWordSpoken(w: string)
    requires TableWord(w)
    ensures Spoken(w) && Lacks(w, 'd') && Lacks(w, 'z')
  {
    forall i | 0 <= i < |w| ensures SpokenChar(w, i) {
      assert IsTableChar(w[i]);
    }
  }

  /** Two spoken texts joined by one space are spoken text; a character neither has, the join lacks. */
  lemma SpokenJoin(a: string, b: string, c: char)
    requires Spoken(a) && Spoken(b)
    ensures Spoken(a + " " + b)
    ensures Lacks(a, c) && Lacks(b, c) && c != ' ' ==> Lacks(a + " " + b, c)
  {
    var w := a + " " + b;
    forall i | 0 <= i < |w| ensures SpokenChar(w, i) && (Lacks(a, c) && Lacks(b, c) && c != ' ' ==> w[i] != c) {
      if i < |a| {
        assert w[i] == a[i] && SpokenChar(a, i);
        if i > 0 { assert w[i - 1] == a[i - 1]; }
      } else if i == |a| {
        assert w[i] == ' ' && w[i - 1] == a[|a| - 1];
      } else {
        var j := i - |a| - 1;
        assert w[i] == b[j] && SpokenChar(b, j);
        if j > 0 { assert w[i - 1] == b[j - 1]; } else { assert w[i - 1] == ' '; }
      }
    }
  }

  /** 1 to 99 in words is spoken text of table letters. */
  lemma UnderHundredSpoken(r: nat)
    requires 1 <= r < 100
    ensures Spoken(UnderHundred(r)) && Lacks(UnderHundred(r), 'd') && UnderHundred(r)[0] != 'z'
  {
    if r < 10 {
      OnesTable(r);
      TableWordSpoken(OnesWords[r]);
    } else if r < 20 {
      TeensTable(r - 10);
      TableWordSpoken(TeensWords[r - 10]);
    } else {
      TensTable(r / 10);
      TableWordSpoken(TensWords[r / 10]);
      if r % 10 != 0 {
        OnesTable(r % 10);
        TableWordSpoken(OnesWords[r % 10]);
        SpokenJoin(TensWords[r / 10], OnesWords[r % 10], 'd');
      }
    }
  }

  lemma HundredSpoken()
    ensures Spoken("hundred") && Lacks("hundred", 'z')
  {
    var w := "hundred";
    forall i | 0 <= i < |w| ensures SpokenChar(w, i) && w[i] != 'z' {
      assert IsLower(w[i]) && w[i] != 'z';
    }
  }

  /** "<ones> hundred" is spoken text with "hundred" at its end. */
  lemma HundredsSpoken(h: nat)
    requires h >= 1
    ensures Spoken(HundredsWords(h)) && HundredsWords(h)[0] != 'z'
    ensures var w := HundredsWords(h); |w| >= 7 && w[|w| - 7..] == "hundred"
  {
    HundredSpoken();
    if h < 10 {
      var o := OnesWords[h];
      OnesTable(h);
      TableWordSpoken(o);
      SpokenJoin(o, "hundred", 'z');
      EndsWithHundred(o);
      assert HundredsWords(h) == o + " " + "hundred";
    } else {
      assert HundredsWords(h) == "hundred";
    }
  }

  lemma EndsWithHundred(o: string)
    ensures var w := o + " " + "hundred"; |w| >= 7 && w[|w| - 7..] == "hundred"
  {
  }

  lemma MagnitudeSpoken(m: nat)
    requires m >= 1
    ensures Spoken(MagnitudeWords(m)) && MagnitudeWords(m)[0] != 'z'
  {
    var h, r := m / 100, m % 100;
    if h == 0 {
      UnderHundredSpoken(r);
    } else {
      HundredsSpoken(h);
      if r != 0 {
        UnderHundredSpoken(r);
        SpokenJoin(HundredsWords(h), UnderHundred(r), 'z');
      }
    }
  }

  /** to_words has no space at either end and never two in a row. */
  lemma WordsSpoken(n: int)
    ensures Spoken(Words(n))
  {
    if n == 0 {
      LiteralSpoken("zero");
    } else if n < 0 {
      NegativeWordsSpoken(n);
    } else {
      MagnitudeSpoken(n);
    }
  }

  lemma NegativeWordsSpoken(n: int)
    requires n < 0
    ensures Spoken(Words(n))
  {
    NegativeSpoken(Abs(n));
  }

  /** "negative " and a magnitude reading is spoken text. */
  lemma NegativeSpoken(m: nat)
    requires m >= 1
    ensures Spoken("negative " + MagnitudeWords(m))
  {
    var v, w := "negative", MagnitudeWords(m);
    MagnitudeSpoken(m);
    assert "negative " + w == v + " " + w;
    LiteralSpoken(v);
    SpokenJoin(v, w, 'z');
  }

  /** The fixed words of to_words outside the tables are spoken text. */
  lemma LiteralSpoken(v: string)
    requires v == "zero" || v == "negative"
    ensures Spoken(v)
  {
    forall i | 0 <= i < |v| ensures SpokenChar(v, i) {
      assert IsLower(v[i]);
    }
  }

  /** "zero" is the reading of 0 and of nothing else. */
  lemma WordsZeroIff(n: int)
    ensures Words(n) == "zero" <==> n == 0
  {
    if n > 0 {
      MagnitudeSpoken(n);
    } else if n < 0 {
      assert Words(n)[0] == 'n';
    }
  }

  /** A negative number reads as "negative " and the reading of its magnitude. */
  lemma WordsNegative(n: int)
    requires n < 0
    ensures Words(n) == "negative " + Words(-n)
    ensures Words(-n) != "zero"
  {
    WordsZeroIff(-n);
  }

  /** "hundred" occurs in w at index i. */
  predicate HundredStartsAt(w: string, i: int) {
    0 <= i && i + 7 <= |w| && w[i..i + 7] == "hundred"
  }

  /** w contains "hundred". */
  predicate HasHundred(w: string) {
    exists i | 0 <= i <= |w| :: HundredStartsAt(w, i)
  }

  lemma LacksNoHundred(w: string)
    requires Lacks(w, 'd')
    ensures !HasHundred(w)
  {
    forall i | 0 <= i <= |w| ensures !HundredStartsAt(w, i) {
      if i + 7 <= |w| {
        assert w[i..i + 7][3] == w[i + 3];
      }
    }
  }

  lemma HundredAtEnd(a: string, b: string)
    requires |a| >= 7 && a[|a| - 7..] == "hundred"
    ensures HasHundred(a + b)
  {
    var w := a + b;
    var i := |a| - 7;
    assert w[i..i + 7] == a[i..];
    assert HundredStartsAt(w, i);
  }

  lemma HundredAfter(a: string, b: string)
    requires HasHundred(b)
    ensures HasHundred(a + b)
  {
    var i :| 0 <= i <= |b| && HundredStartsAt(b, i);
    assert i + 7 <= |b| && b[i..i + 7] == "hundred";
    var w := a + b;
    assert w[|a| + i..|a| + i + 7] == b[i..i + 7];
    assert HundredStartsAt(w, |a| + i);
  }

  /** The reading contains "hundred" exactly when |n| is at least 100. */
  lemma WordsHundredIff(n: int)
    ensures HasHundred(Words(n)) <==> n >= 100 || n <= -100
  {
    if n == 0 {
      LacksNoHundred("zero");
    } else if n > 0 {
      MagnitudeHundredIff(n);
    } else {
      var m := Abs(n);
      var w := MagnitudeWords(m);
      MagnitudeHundredIff(m);
      assert Words(n) == "negative " + w;
      if m < 100 {
        var v := "negative ";
        assert Lacks(v, 'd');
        LacksAppend(v, w, 'd');
        LacksNoHundred(v + w);
      } else {
        HundredAfter("negative ", w);
      }
    }
  }

  lemma LacksAppend(a: string, b: string, c: char)
    requires Lacks(a, c) && Lacks(b, c)
    ensures Lacks(a + b, c)
  {
    var w := a + b;
    assert forall i :: |a| <= i < |w| ==> w[i] == b[i - |a|];
  }

  lemma MagnitudeHundredIff(m: nat)
    requires m >= 1
    ensures HasHundred(MagnitudeWords(m)) <==> m >= 100
    ensures m < 100 ==> Lacks(MagnitudeWords(m), 'd')
  {
    var w := MagnitudeWords(m);
    if m < 100 {
      UnderHundredSpoken(m);
      LacksNoHundred(w);
    } else {
      var x := HundredsWords(m / 100);
      HundredsSpoken(m / 100);
      if m % 100 == 0 {
        HundredAtEnd(x, "");
        assert x + "" == w;
      } else {
        HundredAtEnd(x, " " + UnderHundred(m % 100));
        AppendAssoc(x, " ", UnderHundred(m % 100));
      }
    }
  }

  /** Past 999 the ones table runs out: 1000 reads as "hundred". */
  lemma WordsPastTable()
    ensures Words(1000) == "hundred" && Words(-2000) == "negative hundred"
  {
  }

  lemma WordsNegativeExample(w: string)
    requires w == Words(-42)
    ensures w == "negative forty two"
  {
    assert Abs(-42) == 42;
    assert w == "negative " + MagnitudeWords(42);
    assert TensWords[4] == "forty" && OnesWords[2] == "two";
    assert MagnitudeWords(42) == UnderHundred(42) == "forty" + " " + "two";
  }

  lemma WordsHundredsExample(w: string)
    requires w == Words(115)
    ensures w == "one hundred fifteen"
  {
    assert MagnitudeWords(115) == "one" + " hundred" + " " + "fifteen";
  }

}
