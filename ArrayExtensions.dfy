/**
 * The Array and NilClass extensions of NoRegex: `all_numbers?`,
 * `all_strings?`, the selection steps of `extract_numbers` and
 * `extract_emails`, and the answers nil gives to `is_blank?`, `is_number?`,
 * `is_letters?` and `is_email?`.
 *
 * An array holds arbitrary Ruby objects; the checks only look at an
 * element's class (String or not) and at its `to_s`, so an element is
 * modelled by that much.
 */
module ArrayExtensions {
  import opened Chars
  import opened Seqs
  import opened Patterns
  import Numerals
  import PatternProperties
  import StringExtensions

  /**
   * An array element: a String, an Integer, nil, or any other object, given
   * by the text its `to_s` returns (a Float, a Symbol, ...).
   */
  datatype Item = Str(s: string) | Int(n: int) | Nil | Other(text: string)

  /** Object#to_s of an element: a String is itself, an Integer its decimal digits, nil is "". */
  function ToS(x: Item): string {
    match x
    case Str(s) => s
    case Int(n) => Numerals.Decimal(n)
    case Nil => ""
    case Other(text) => text
  }

  /** `item.to_s.match?(/\A-?\d+(\.\d+)?\z/)`: the catalog's is_number? grammar. */
  predicate LooksNumeric(x: Item) { IsNumber(ToS(x)) }

  /** `item.to_s.match?` of the catalog's is_email? grammar. */
  predicate LooksLikeEmail(x: Item) { IsEmail(ToS(x)) }

  /** `item.is_a?(String)` */
  predicate IsString(x: Item) { x.Str? }

  /** Array#all_numbers?: false for the empty array, else every element's to_s is a number. */
  predicate AllNumbers(items: seq<Item>) {
    items != [] && All(items, LooksNumeric)
  }

  /** Array#all_strings?: every element is a String (true for the empty array). */
  predicate AllStrings(items: seq<Item>) {
    All(items, IsString)
  }

  /** The `select` step of Array#extract_numbers: the elements whose to_s is a number, in order. */
  function NumberCandidates(items: seq<Item>): (r: seq<Item>)
    ensures |r| <= |items| && All(r, LooksNumeric)
  {
    Filter(items, LooksNumeric)
  }

  /** Array#extract_emails: the elements whose to_s is an email address, in order. */
  function ExtractEmails(items: seq<Item>): (r: seq<Item>)
    ensures |r| <= |items| && All(r, LooksLikeEmail)
  {
    Filter(items, LooksLikeEmail)
  }

  // ---------------------------------------------------------------------------
  // all_numbers? and all_strings?

  /**
   * all_numbers? holds exactly when the array is not empty and the number
   * selection keeps every element; the empty array is not all numbers but
   * is all strings.
   */
  lemma AllNumbersIff(items: seq<Item>)
    ensures AllNumbers(items) <==> items != [] && NumberCandidates(items) == items
    ensures !AllNumbers([]) && AllStrings([])
  {
    FilterKeepsAll(items, LooksNumeric);
  }

  /** Two non-empty arrays are all numbers together exactly when each one is. */
  lemma AllNumbersAppend(a: seq<Item>, b: seq<Item>)
    requires a != [] && b != []
    ensures AllNumbers(a + b) <==> AllNumbers(a) && AllNumbers(b)
  {
    var w := a + b;
    if AllNumbers(w) {
      forall i | 0 <= i < |a| ensures LooksNumeric(a[i]) { assert a[i] == w[i]; }
      forall i | 0 <= i < |b| ensures LooksNumeric(b[i]) { assert b[i] == w[|a| + i]; }
    }
    if AllNumbers(a) && AllNumbers(b) {
      forall i | 0 <= i < |w| ensures LooksNumeric(w[i]) {
        if i < |a| { assert w[i] == a[i]; } else { assert w[i] == b[i - |a|]; }
      }
    }
  }

  /** A digit of base 10 is a decimal digit. */
  lemma DecimalDigit(c: char)
    requires Numerals.IsBaseDigit(c, 10)
    ensures IsDigit(c)
  {
  }

  /** Integer#to_s is always a number for the is_number? grammar (and an integer). */
  lemma DecimalIsNumber(n: int)
    ensures IsNumber(Numerals.Decimal(n)) && IsInteger(Numerals.Decimal(n))
  {
    var d := Numerals.DigitsOf(if n < 0 then -n else n, 10);
    forall i | 0 <= i < |d| ensures IsDigit(d[i]) {
      DecimalDigit(d[i]);
    }
    PatternProperties.NumberOfDigits(d);
    assert ("-" + d)[1..] == d;
    assert Numerals.Decimal(n) == if n < 0 then "-" + d else d;
  }

  /** A non-empty array of Integers is all numbers, and the number selection keeps all of it. */
  lemma IntegersAreNumbers(items: seq<Item>)
    requires items != [] && All(items, (x: Item) => x.Int?)
    ensures AllNumbers(items) && NumberCandidates(items) == items
  {
    forall i | 0 <= i < |items| ensures LooksNumeric(items[i]) {
      assert items[i].Int?;
      DecimalIsNumber(items[i].n);
    }
    AllNumbersIff(items);
  }

  /** nil.to_s is "", which is no number: an array holding nil is never all numbers. */
  lemma NilIsNotNumeric(items: seq<Item>)
    requires Nil in items
    ensures !AllNumbers(items) && !AllStrings(items)
    ensures Nil !in NumberCandidates(items) && Nil !in ExtractEmails(items)
  {
    FilterMembership(items, LooksNumeric, Nil);
    FilterMembership(items, LooksLikeEmail, Nil);
  }

  // ---------------------------------------------------------------------------
  // The selections

  /**
   * extract_numbers selects in order: its result is a subsequence of the
   * array, keeps exactly the elements whose to_s is a number, and selecting
   * again changes nothing.
   */
  lemma NumberCandidatesSelect(items: seq<Item>, x: Item)
    ensures IsSubsequence(NumberCandidates(items), items)
    ensures x in NumberCandidates(items) <==> x in items && LooksNumeric(x)
    ensures NumberCandidates(NumberCandidates(items)) == NumberCandidates(items)
  {
    FilterIsSubsequence(items, LooksNumeric);
    FilterMembership(items, LooksNumeric, x);
    FilterIdempotent(items, LooksNumeric);
  }

  /**
   * extract_emails selects in order: its result is a subsequence of the
   * array, keeps exactly the elements whose to_s is an email address, and
   * selecting again changes nothing.
   */
  lemma ExtractEmailsSelect(items: seq<Item>, x: Item)
    ensures IsSubsequence(ExtractEmails(items), items)
    ensures x in ExtractEmails(items) <==> x in items && LooksLikeEmail(x)
    ensures ExtractEmails(ExtractEmails(items)) == ExtractEmails(items)
  {
    FilterIsSubsequence(items, LooksLikeEmail);
    FilterMembership(items, LooksLikeEmail, x);
    FilterIdempotent(items, LooksLikeEmail);
  }

  /** Both selections distribute over concatenation. */
  lemma SelectAppend(a: seq<Item>, b: seq<Item>)
    ensures NumberCandidates(a + b) == NumberCandidates(a) + NumberCandidates(b)
    ensures ExtractEmails(a + b) == ExtractEmails(a) + ExtractEmails(b)
  {
    FilterAppend(a, b, LooksNumeric);
    FilterAppend(a, b, LooksLikeEmail);
  }

  /** No element is both a number and an email address: the two selections never share an element. */
  lemma NumbersAreNotEmails(x: Item)
    ensures !(LooksNumeric(x) && LooksLikeEmail(x))
  {
    var s := ToS(x);
    if IsEmail(s) {
      var i :| 0 <= i < |s| && s[i] == '@' && Plus(s[..i], IsEmailLocalChar) && IsEmailDomain(s[i + 1..]);
      NumberHasNoAt(s, i);
    }
  }

  /** A number is made of digits, '-' and '.', so it has no '@'. */
  lemma NumberHasNoAt(s: string, i: nat)
    requires i < |s| && s[i] == '@'
    ensures !IsNumber(s)
  {
    if IsDecimal(s) {
      DecimalHasNoAt(s, i);
    }
    if |s| > 0 && s[0] == '-' && IsDecimal(s[1..]) {
      assert i > 0;
      assert s[1..][i - 1] == '@';
      DecimalHasNoAt(s[1..], i - 1);
    }
  }

  lemma DecimalHasNoAt(s: string, i: nat)
    requires i < |s| && s[i] == '@'
    ensures !IsDecimal(s)
  {
    assert !IsDigit(s[i]);
    forall k | 0 <= k < |s| && s[k] == '.'
      ensures !(Plus(s[..k], IsDigit) && Plus(s[k + 1..], IsDigit))
    {
      if i < k {
        assert s[..k][i] == s[i];
      } else {
        assert s[k + 1..][i - k - 1] == s[i];
      }
    }
  }

  // ---------------------------------------------------------------------------
  // NilClass

  /** The checks NilClass answers. */
  datatype NilCheck = BlankCheck | NumberCheck | LettersCheck | EmailCheck

  /** NilClass#is_blank? is true; is_number?, is_letters? and is_email? are false. */
  function NilAnswer(c: NilCheck): (b: bool)
    ensures b <==> c == BlankCheck
  {
    match c
    case BlankCheck => true
    case NumberCheck => false
    case LettersCheck => false
    case EmailCheck => false
  }

  /** What String answers for the same check on "" (nil.to_s). */
  predicate EmptyStringAnswer(c: NilCheck) {
    match c
    case BlankCheck => StringExtensions.IsBlank("")
    case NumberCheck => StringExtensions.StringMatches(Rule.Number, "")
    case LettersCheck => StringExtensions.StringMatches(Rule.Letters, "")
    case EmailCheck => StringExtensions.StringMatches(Rule.Email, "")
  }

  /** nil answers every check as the empty string nil.to_s would. */
  lemma NilAnswersAsEmptyString(c: NilCheck)
    ensures NilAnswer(c) == EmptyStringAnswer(c)
  {
    match c
    case BlankCheck => StringExtensions.BlankIff("");
    case NumberCheck => StringExtensions.StringChecksAgree(Rule.Number, "");
    case LettersCheck => StringExtensions.StringChecksAgree(Rule.Letters, "");
    case EmailCheck => StringExtensions.StringChecksAgree(Rule.Email, "");
  }
}
