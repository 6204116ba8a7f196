/**
 * The grammar catalog of NoRegex::PatternMethods: one predicate per format,
 * each the language of an anchored (`\A...\z`) regular expression.
 *
 * A regular expression is modelled by the shape of its match: character
 * classes are predicates on characters, `[class]+` is `Plus`, `[class]{n}` is
 * `Exactly`, `[class]*` is `All`, an optional part is a disjunction, and a
 * concatenation whose split point is not fixed by widths is an `exists` over
 * the split index. Matching is whole-string matching, so backtracking needs no
 * modelling: a string is accepted when some split makes every part match.
 */
module Patterns {
  import opened Chars
  import opened Seqs

  // ---------------------------------------------------------------------------
  // Repetition shapes

  /** `[class]+` */
  predicate Plus(s: string, p: char -> bool) {
    |s| > 0 && All(s, p)
  }

  /** `[class]{n}` */
  predicate Exactly(s: string, n: nat, p: char -> bool) {
    |s| == n && All(s, p)
  }

  // ---------------------------------------------------------------------------
  // Character classes used by the grammars (case-insensitive ones already
  // include both cases)

  /** `[\w+\-.]` */
  predicate IsEmailLocalChar(c: char) { IsWordChar(c) || c == '+' || c == '-' || c == '.' }

  /** `[a-z\d\-]` under the /i flag */
  predicate IsDomainChar(c: char) { IsAlnum(c) || c == '-' }

  /** `[\da-z\.-]` (case-sensitive) */
  predicate IsUrlHostChar(c: char) { IsDigit(c) || IsLower(c) || c == '.' || c == '-' }

  /** `[a-z\.]` (case-sensitive) */
  predicate IsUrlTldChar(c: char) { IsLower(c) || c == '.' }

  /** `[\/\w \.-]` */
  predicate IsUrlPathChar(c: char) { c == '/' || IsWordChar(c) || c == ' ' || c == '.' || c == '-' }

  /** `[\d\s\-\(\)]` */
  predicate IsPhoneChar(c: char) { IsDigit(c) || IsSpace(c) || c == '-' || c == '(' || c == ')' }

  /** `[a-zA-Z0-9_\-]` */
  predicate IsUsernameChar(c: char) { IsAlnum(c) || c == '_' || c == '-' }

  /** `[\s\-]` */
  predicate IsCardSeparator(c: char) { IsSpace(c) || c == '-' }

  /** `[a-zA-Z0-9\s]` */
  predicate IsPlainTextChar(c: char) { IsAlnum(c) || IsSpace(c) }

  // ---------------------------------------------------------------------------
  // Numbers

  /** is_decimal?: `\A\d+(\.\d+)?\z` */
  predicate IsDecimal(s: string) {
    Plus(s, IsDigit)
    || exists i | 0 <= i < |s| :: s[i] == '.' && Plus(s[..i], IsDigit) && Plus(s[i + 1..], IsDigit)
  }

  /** is_number?: `\A-?\d+(\.\d+)?\z` */
  predicate IsNumber(s: string) {
    IsDecimal(s) || (|s| > 0 && s[0] == '-' && IsDecimal(s[1..]))
  }

  /** is_integer?: `\A-?\d+\z` */
  predicate IsInteger(s: string) {
    Plus(s, IsDigit) || (|s| > 0 && s[0] == '-' && Plus(s[1..], IsDigit))
  }

  /** is_positive_number?: `\A[1-9]\d*\z` */
  predicate IsPositiveNumber(s: string) {
    |s| > 0 && '1' <= s[0] <= '9' && All(s[1..], IsDigit)
  }

  // ---------------------------------------------------------------------------
  // Words

  /** is_letters?: `\A[a-zA-Z]+\z` */
  predicate IsLetters(s: string) { Plus(s, IsLetter) }

  /** is_alphanumeric?: `\A[a-zA-Z0-9]+\z` */
  predicate IsAlphanumeric(s: string) { Plus(s, IsAlnum) }

  /** is_username?: `\A[a-zA-Z0-9_\-]+\z` */
  predicate IsUsername(s: string) { Plus(s, IsUsernameChar) }

  /** has_no_spaces?: `\A[^\s]+\z` */
  predicate HasNoSpaces(s: string) { Plus(s, IsNonSpace) }

  /** has_no_special_chars?: `\A[a-zA-Z0-9\s]+\z` */
  predicate HasNoSpecialChars(s: string) { Plus(s, IsPlainTextChar) }

  // ---------------------------------------------------------------------------
  // Email: `\A[\w+\-.]+@[a-z\d\-]+(\.[a-z\d\-]+)*\.[a-z]+\z`, flag /i

  /** `[a-z\d\-]+(\.[a-z\d\-]+)*`: non-empty labels separated by single dots. */
  predicate IsDomainLabels(x: string)
    decreases |x|
  {
    Plus(x, IsDomainChar)
    || exists k | 0 <= k < |x| :: x[k] == '.' && Plus(x[..k], IsDomainChar) && IsDomainLabels(x[k + 1..])
  }

  /** `[a-z\d\-]+(\.[a-z\d\-]+)*\.[a-z]+` */
  predicate IsEmailDomain(d: string) {
    exists j | 0 <= j < |d| :: d[j] == '.' && IsDomainLabels(d[..j]) && Plus(d[j + 1..], IsLetter)
  }

  /** is_email? */
  predicate IsEmail(s: string) {
    exists i | 0 <= i < |s| :: s[i] == '@' && Plus(s[..i], IsEmailLocalChar) && IsEmailDomain(s[i + 1..])
  }

  // ---------------------------------------------------------------------------
  // URL: `\A(https?:\/\/)?([\da-z\.-]+)\.([a-z\.]{2,6})([\/\w \.-]*)*\/?\z`

  /** `([\/\w \.-]*)*`: any number of chunks of path characters. */
  predicate IsUrlPathChunks(x: string)
    decreases |x|
  {
    x == []
    || exists k | 0 < k <= |x| :: All(x[..k], IsUrlPathChar) && IsUrlPathChunks(x[k..])
  }

  /** `([\/\w \.-]*)*\/?` */
  predicate IsUrlPath(x: string) {
    IsUrlPathChunks(x) || (|x| > 0 && x[|x| - 1] == '/' && IsUrlPathChunks(x[..|x| - 1]))
  }

  /** `([a-z\.]{2,6})([\/\w \.-]*)*\/?` */
  predicate IsUrlTldAndPath(u: string) {
    exists j | 2 <= j <= 6 && j <= |u| :: All(u[..j], IsUrlTldChar) && IsUrlPath(u[j..])
  }

  /** `([\da-z\.-]+)\.([a-z\.]{2,6})([\/\w \.-]*)*\/?` */
  predicate IsUrlAfterScheme(t: string) {
    exists i | 0 <= i < |t| :: t[i] == '.' && Plus(t[..i], IsUrlHostChar) && IsUrlTldAndPath(t[i + 1..])
  }

  /** is_url?: the optional scheme `(https?:\/\/)?`, then the rest. */
  predicate IsUrl(s: string) {
    IsUrlAfterScheme(s)
    || (|s| >= 7 && s[..7] == "http://" && IsUrlAfterScheme(s[7..]))
    || (|s| >= 8 && s[..8] == "https://" && IsUrlAfterScheme(s[8..]))
  }

  // ---------------------------------------------------------------------------
  // Fixed-layout identifiers

  /** is_phone_number?: `\A\+?[\d\s\-\(\)]+\z` */
  predicate IsPhoneNumber(s: string) {
    Plus(s, IsPhoneChar) || (|s| > 0 && s[0] == '+' && Plus(s[1..], IsPhoneChar))
  }

  /** is_zip_code?: `\A\d{5}(-\d{4})?\z` */
  predicate IsZipCode(s: string) {
    Exactly(s, 5, IsDigit)
    || (|s| == 10 && Exactly(s[..5], 5, IsDigit) && s[5] == '-' && Exactly(s[6..], 4, IsDigit))
  }

  /** is_hex_color?: `\A#?[0-9A-Fa-f]{6}\z` */
  predicate IsHexColor(s: string) {
    Exactly(s, 6, IsHexDigit) || (|s| > 0 && s[0] == '#' && Exactly(s[1..], 6, IsHexDigit))
  }

  /** is_uuid?: `\A[0-9a-f]{8}-[0-9a-f]{4}-[0-9a-f]{4}-[0-9a-f]{4}-[0-9a-f]{12}\z`, flag /i */
  predicate IsUuid(s: string) {
    |s| == 36
    && Exactly(s[..8], 8, IsHexDigit) && s[8] == '-'
    && Exactly(s[9..13], 4, IsHexDigit) && s[13] == '-'
    && Exactly(s[14..18], 4, IsHexDigit) && s[18] == '-'
    && Exactly(s[19..23], 4, IsHexDigit) && s[23] == '-'
    && Exactly(s[24..], 12, IsHexDigit)
  }

  /** `\d{4}([\s\-]?\d{4}){n-1}`: n groups of four digits, one optional separator between groups. */
  predicate IsCardGroups(s: string, n: nat)
    decreases n
  {
    |s| >= 4 && All(s[..4], IsDigit)
    && if n <= 1 then |s| == 4
       else IsCardGroups(s[4..], n - 1) || (|s| > 4 && IsCardSeparator(s[4]) && IsCardGroups(s[5..], n - 1))
  }

  /** is_credit_card?: `\A\d{4}[\s\-]?\d{4}[\s\-]?\d{4}[\s\-]?\d{4}\z` */
  predicate IsCreditCard(s: string) { IsCardGroups(s, 4) }

  /** `\d{2}-?\d{4}` */
  predicate IsSsnTail(t: string) {
    |t| >= 2 && All(t[..2], IsDigit)
    && (Exactly(t[2..], 4, IsDigit) || (|t| > 2 && t[2] == '-' && Exactly(t[3..], 4, IsDigit)))
  }

  /** is_ssn?: `\A\d{3}-?\d{2}-?\d{4}\z` */
  predicate IsSsn(s: string) {
    |s| >= 3 && All(s[..3], IsDigit)
    && (IsSsnTail(s[3..]) || (|s| > 3 && s[3] == '-' && IsSsnTail(s[4..])))
  }

  /** `[0-9][0-9]?` */
  predicate IsOctetLow(t: string) { (|t| == 1 || |t| == 2) && All(t, IsDigit) }

  /** `25[0-5]|2[0-4][0-9]|[01]?[0-9][0-9]?` */
  predicate IsOctet(o: string) {
    (|o| == 3 && o[0] == '2' && o[1] == '5' && '0' <= o[2] <= '5')
    || (|o| == 3 && o[0] == '2' && '0' <= o[1] <= '4' && IsDigit(o[2]))
    || IsOctetLow(o)
    || (|o| > 0 && (o[0] == '0' || o[0] == '1') && IsOctetLow(o[1..]))
  }

  /** `(?:octet\.){n}octet` */
  predicate IsDottedOctets(s: string, n: nat)
    decreases n
  {
    if n == 0 then IsOctet(s)
    else exists i | 0 <= i < |s| :: s[i] == '.' && IsOctet(s[..i]) && IsDottedOctets(s[i + 1..], n - 1)
  }

  /** is_ipv4?: four octets separated by dots. */
  predicate IsIpv4(s: string) { IsDottedOctets(s, 3) }

  /** is_time_24h?: `\A(?:[01]\d|2[0-3]):[0-5]\d\z` */
  predicate IsTime24h(s: string) {
    |s| == 5
    && (((s[0] == '0' || s[0] == '1') && IsDigit(s[1])) || (s[0] == '2' && '0' <= s[1] <= '3'))
    && s[2] == ':'
    && '0' <= s[3] <= '5' && IsDigit(s[4])
  }

  /** is_date_yyyy_mm_dd?: `\A\d{4}-(?:0[1-9]|1[0-2])-(?:0[1-9]|[12]\d|3[01])\z` */
  predicate IsDateYyyyMmDd(s: string) {
    |s| == 10
    && Exactly(s[..4], 4, IsDigit) && s[4] == '-'
    && ((s[5] == '0' && '1' <= s[6] <= '9') || (s[5] == '1' && '0' <= s[6] <= '2'))
    && s[7] == '-'
    && ((s[8] == '0' && '1' <= s[9] <= '9') || ((s[8] == '1' || s[8] == '2') && IsDigit(s[9]))
        || (s[8] == '3' && (s[9] == '0' || s[9] == '1')))
  }

  // ---------------------------------------------------------------------------
  // The catalog

  /** One rule per method of NoRegex::PatternMethods. */
  datatype Rule =
    | Number | Letters | Alphanumeric | Email | Url | PhoneNumber | ZipCode | HexColor
    | Username | Decimal | Integer | PositiveNumber | Uuid | CreditCard | Ssn | Ipv4
    | Time24h | DateYyyyMmDd | NoSpaces | NoSpecialChars

  /** Whole-string match of s against the rule's grammar. */
  predicate Matches(r: Rule, s: string) {
    match r
    case Number => IsNumber(s)
    case Letters => IsLetters(s)
    case Alphanumeric => IsAlphanumeric(s)
    case Email => IsEmail(s)
    case Url => IsUrl(s)
    case PhoneNumber => IsPhoneNumber(s)
    case ZipCode => IsZipCode(s)
    case HexColor => IsHexColor(s)
    case Username => IsUsername(s)
    case Decimal => IsDecimal(s)
    case Integer => IsInteger(s)
    case PositiveNumber => IsPositiveNumber(s)
    case Uuid => IsUuid(s)
    case CreditCard => IsCreditCard(s)
    case Ssn => IsSsn(s)
    case Ipv4 => IsIpv4(s)
    case Time24h => IsTime24h(s)
    case DateYyyyMmDd => IsDateYyyyMmDd(s)
    case NoSpaces => HasNoSpaces(s)
    case NoSpecialChars => HasNoSpecialChars(s)
  }
}
