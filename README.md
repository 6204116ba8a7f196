# NoRegex in Dafny

A model of the Ruby library NoRegex (Derity/no_regex). The library lets
callers validate and transform text with named methods instead of
hand-written regular expressions. The model covers three parts of it:

- **The grammar catalog** (`NoRegex::PatternMethods`): twenty named formats.
  These are number, letters, alphanumeric, email, URL, phone number, zip
  code, hex colour, username, decimal, integer, positive number, UUID,
  credit card, SSN, IPv4, 24-hour time, `YYYY-MM-DD` date, no spaces and
  no special characters. Each is a predicate on strings (`Patterns`),
  written as the regular expression's structure. How far each is proved:
  - Letters, alphanumeric, username, no spaces and no special characters
    are single character classes repeated. Their definitions are already
    plain descriptions. `WordGrammarsNest` relates them to each other.
  - Phone number and integer are a class after an optional sign. They are
    related to the other grammars by inclusion only (`WordGrammarsNest`,
    `NumberGrammarsNest`).
  - Decimal, number, positive number, IPv4 (through its octets), 24-hour
    time, date, zip code, hex colour and UUID each have an if-and-only-if
    lemma. It equates the grammar with a description that is not shaped
    like a regular expression: digit-and-dot shapes, value bounds, or
    position layouts.
  - SSNs and card numbers are proved in both directions by a pair of
    lemmas. One shows that every layout of the digits is accepted. The
    other shows that every accepted string is one of those layouts.
  - Email addresses and URLs are characterised in parts:
    - the email domain's labels and the URL path's nested star have
      if-and-only-if lemmas;
    - a construction lemma shows that well-formed parts are accepted;
    - an email address is proved to hold exactly one '@'.

  These proofs are in `PatternProperties` and `FormatProperties`.
- **The String extensions** (`StringExtensions`):
  - the `is_*` checks, and `strip`/`is_blank?`;
  - the removing and keeping filters;
  - `to_snake_case` and `to_camel_case`;
  - `extract_numbers`, `word_count` and `truncate`.
- **The numeric, Array and nil extensions**:
  - `NumericExtensions`:
    - the Integer sign and parity checks;
    - `to_currency`, `to_hex`, `to_binary` and `to_formatted`;
    - `to_words`, written as a method with the same local updates as the
      source and proved against a reference reading.
  - `ArrayExtensions`:
    - `all_numbers?` and `all_strings?`;
    - the selection steps of `extract_numbers` and `extract_emails`;
    - the `NilClass` answers.

Helper modules:
- `Chars`: ASCII character classes and case mapping.
- `Seqs`: selection, subsequences, runs, joins and reversal, with their
  lemmas.
- `Numerals`: `Integer#to_s(base)` and reading digits back.

Strings are sequences of characters. Integers are unbounded, as Ruby's are.
Every regular expression is matched against the whole string (`\A…\z`).

The model follows the code in these places:
- `to_camel_case` capitalises each later part with Ruby's `capitalize`. That
  method also lowers the rest of the part, so `"a_bC"` becomes `"aBc"`.
- For input that is only separators, `to_camel_case` fails because
  `parts[0]` is nil. The model returns `Failure` exactly then.
- `to_words` is documented for 0 to 999, but nothing restricts its input.
  Past 999 its ones table has no entry, and Ruby interpolates that nil as an
  empty string. So 1000 reads as "hundred" and -2000 as "negative hundred".
  The model is total and proves this behaviour.
- `String#is_number?` is `\A\d+\z` (digits only). The catalog's `is_number?`
  also accepts a sign and a fraction. `Array#all_numbers?` and
  `extract_numbers` write out their own copy of that same grammar. Both are modelled, and the difference is proved.

## Model

| member | source | states |
|---|---|---|
| Patterns.IsNumber | lib/no_regex/pattern_methods.rb:7-10 | definition of `\A-?\d+(\.\d+)?\z`, no contract; characterised by NumberIff |
| Patterns.IsLetters | lib/no_regex/pattern_methods.rb:12-15 | definition of `\A[a-zA-Z]+\z` as a non-empty run of ASCII letters, no contract; placed by WordGrammarsNest |
| Patterns.IsAlphanumeric | lib/no_regex/pattern_methods.rb:17-20 | definition of `\A[a-zA-Z0-9]+\z` as a non-empty run of letters and digits, no contract; placed by WordGrammarsNest |
| Patterns.IsEmail | lib/no_regex/pattern_methods.rb:22-25 | definition of the /i email grammar (local part, '@', labels, '.', letters), no contract; specified by DomainLabelsIff, EmailOfParts and EmailHasOneAt |
| Patterns.IsUrl | lib/no_regex/pattern_methods.rb:27-30 | definition of the URL grammar (optional scheme, host, '.', 2 to 6 top-level characters, path, optional '/'), no contract; specified by UrlPathIff and UrlOfParts |
| Patterns.IsPhoneNumber | lib/no_regex/pattern_methods.rb:32-35 | definition of `\A\+?[\d\s\-\(\)]+\z`, no contract; placed by WordGrammarsNest |
| Patterns.IsZipCode | lib/no_regex/pattern_methods.rb:37-40 | definition of `\A\d{5}(-\d{4})?\z`, no contract; characterised by ZipCodeIff |
| Patterns.IsHexColor | lib/no_regex/pattern_methods.rb:42-45 | definition of `\A#?[0-9A-Fa-f]{6}\z`, no contract; characterised by HexColorIff |
| Patterns.IsUsername | lib/no_regex/pattern_methods.rb:47-50 | definition of `\A[a-zA-Z0-9_-]+\z`, no contract; placed by WordGrammarsNest |
| Patterns.IsDecimal | lib/no_regex/pattern_methods.rb:52-55 | definition of `\A\d+(\.\d+)?\z`, no contract; characterised by DecimalIff |
| Patterns.IsInteger | lib/no_regex/pattern_methods.rb:57-60 | definition of `\A-?\d+\z`, no contract; placed by NumberGrammarsNest |
| Patterns.IsPositiveNumber | lib/no_regex/pattern_methods.rb:62-65 | definition of `\A[1-9]\d*\z`, no contract; characterised by PositiveNumberIff |
| Patterns.IsUuid | lib/no_regex/pattern_methods.rb:67-70 | definition of the /i 8-4-4-4-12 hex grammar, no contract; characterised by UuidIff |
| Patterns.IsCreditCard | lib/no_regex/pattern_methods.rb:72-75 | definition of four four-digit groups with optional `[\s\-]` separators, no contract; characterised by CreditCardOfGroups and CreditCardHasLayout |
| Patterns.IsSsn | lib/no_regex/pattern_methods.rb:77-80 | definition of `\A\d{3}-?\d{2}-?\d{4}\z`, no contract; characterised by SsnLayoutAccepted and SsnHasLayout |
| Patterns.IsIpv4 | lib/no_regex/pattern_methods.rb:82-85 | definition of four dotted octets of the octet alternatives, no contract; characterised by OctetIff and Ipv4Iff |
| Patterns.IsTime24h | lib/no_regex/pattern_methods.rb:87-90 | definition of `\A(?:[01]\d\|2[0-3]):[0-5]\d\z`, no contract; characterised by Time24hIff |
| Patterns.IsDateYyyyMmDd | lib/no_regex/pattern_methods.rb:92-95 | definition of the four-digit year, month 01 to 12 and day 01 to 31 grammar, no contract; characterised by DateIff |
| Patterns.HasNoSpaces | lib/no_regex/pattern_methods.rb:97-100 | definition of `\A[^\s]+\z`, no contract; placed by WordGrammarsNest |
| Patterns.HasNoSpecialChars | lib/no_regex/pattern_methods.rb:102-105 | definition of `\A[a-zA-Z0-9\s]+\z`, no contract; placed by WordGrammarsNest |
| Patterns.Matches | lib/no_regex/pattern_methods.rb:7-105 | the catalog: whole-string match against each rule's grammar, no contract; NoRuleMatchesEmpty is stated over it |
| PatternProperties.NoRuleMatchesEmpty | lib/no_regex/pattern_methods.rb:7-105 | no grammar of the catalog accepts the empty string |
| PatternProperties.DecimalIff | lib/no_regex/pattern_methods.rb:52-55 | is_decimal? accepts exactly the strings of digits and at most one '.', beginning and ending with a digit |
| PatternProperties.NumberIff | lib/no_regex/pattern_methods.rb:7-10 | is_number? accepts exactly the decimal shape, optionally after one leading '-' |
| PatternProperties.DecimalOfParts | lib/no_regex/pattern_methods.rb:7-10 | for non-empty digit strings d and f, "d.f" is a decimal and a number, and so is "-d.f" |
| PatternProperties.NumberOfDigits | lib/no_regex/pattern_methods.rb:7-10 | a non-empty digit string is a number, with or without a leading '-' |
| PatternProperties.NumberAcceptedExamples | lib/no_regex/pattern_methods.rb:7-10 | the documented examples "-0.5", "999.99" and "-456" are numbers |
| PatternProperties.NumberRejectedExamples | lib/no_regex/pattern_methods.rb:7-10 | "1.", ".5", "1.2.3" and "+1" are not numbers |
| PatternProperties.PositiveNumberIff | lib/no_regex/pattern_methods.rb:62-65 | is_positive_number? accepts exactly non-empty digit strings that do not start with '0' |
| PatternProperties.PositiveNumberExamples | lib/no_regex/pattern_methods.rb:62-65 | "1", "123" and "999" are accepted; "0", "00123" and "-5" are rejected |
| PatternProperties.NumberGrammarsNest | lib/no_regex/pattern_methods.rb:52-65 | positive number implies integer; integer implies number; decimal implies number; integer and decimal together are exactly an unsigned digit run |
| PatternProperties.OctetIff | lib/no_regex/pattern_methods.rb:82-85 | an IPv4 octet is one to three digits whose value is at most 255 (leading zeros allowed) |
| PatternProperties.DottedOctetsFields | lib/no_regex/pattern_methods.rb:82-85 | n+1 octets joined by dots is exactly a string whose '.'-separated fields are n+1 octets |
| PatternProperties.Ipv4Iff | lib/no_regex/pattern_methods.rb:82-85 | is_ipv4? accepts exactly the strings that split at '.' into four octets |
| PatternProperties.Ipv4OfOctets | lib/no_regex/pattern_methods.rb:82-85 | any four octets joined by dots are accepted |
| PatternProperties.Ipv4RejectsLargeOctet | lib/no_regex/pattern_methods.rb:82-85 | a leading field of digits worth more than 255 is rejected, whatever follows |
| PatternProperties.Time24hIff | lib/no_regex/pattern_methods.rb:87-90 | is_time_24h? is "hh:mm" with two-digit fields, hours at most 23 and minutes at most 59 |
| PatternProperties.DateIff | lib/no_regex/pattern_methods.rb:92-95 | is_date_yyyy_mm_dd? is four digits, '-', a month 1 to 12, '-', a day 1 to 31, each two digits |
| PatternProperties.TimeAndDateExamples | lib/no_regex/pattern_methods.rb:87-95 | "00:00" and "23:59" are accepted, "24:00" and "12:60" rejected; "2024-02-30" is accepted (no calendar check), month 13, month 00 and day 32 are rejected |
| FormatProperties.WordGrammarsNest | lib/no_regex/pattern_methods.rb:12-105 | letters implies alphanumeric; alphanumeric implies username and no-special-chars; username implies no-spaces; integer implies phone number |
| FormatProperties.ZipCodeIff | lib/no_regex/pattern_methods.rb:37-40 | a zip code is five digits, or ten characters that are digits except a '-' at index 5 |
| FormatProperties.HexColorIff | lib/no_regex/pattern_methods.rb:42-45 | a hex colour is six hex digits, alone or after one '#' |
| FormatProperties.UuidIff | lib/no_regex/pattern_methods.rb:67-70 | a UUID is 36 characters with '-' at indexes 8, 13, 18 and 23 and hex digits (either case) everywhere else |
| FormatProperties.CreditCardOfGroups | lib/no_regex/pattern_methods.rb:72-75 | four groups of four digits with at most one whitespace character or '-' between neighbouring groups form a card number |
| FormatProperties.CreditCardHasLayout | lib/no_regex/pattern_methods.rb:72-75 | every accepted card number is four groups of four digits with at most one whitespace character or '-' between neighbouring groups, and nothing else |
| FormatProperties.CreditCardDigits | lib/no_regex/pattern_methods.rb:72-75 | a card number holds exactly 16 digits, is 16 to 19 characters long, and its digits alone are again a card number |
| FormatProperties.SsnLayoutAccepted | lib/no_regex/pattern_methods.rb:77-80 | nine digits, with or without the hyphen after the third and the fifth digit, are accepted, and removing the hyphens gives the digits back |
| FormatProperties.SsnHasLayout | lib/no_regex/pattern_methods.rb:77-80 | every accepted SSN has exactly nine digits and is one of those four layouts of them |
| FormatProperties.DomainLabelsIff | lib/no_regex/pattern_methods.rb:22-25 | the email domain labels are exactly non-empty runs of letters, digits and '-', separated by single dots, with no dot at either end |
| FormatProperties.EmailOfParts | lib/no_regex/pattern_methods.rb:22-25 | a local part, '@', such labels, '.' and a letter-only suffix form an email address |
| FormatProperties.EmailHasOneAt | lib/no_regex/pattern_methods.rb:22-25 | an accepted email address contains exactly one '@' |
| FormatProperties.UrlPathIff | lib/no_regex/pattern_methods.rb:27-30 | the URL grammar's nested star `([\/\w \.-]*)*` accepts exactly the strings of path characters |
| FormatProperties.UrlOfParts | lib/no_regex/pattern_methods.rb:27-30 | a host, '.', a 2 to 6 character top-level part and a path form a URL, with no scheme, "http://" or "https://" |
| StringExtensions.StringMatches | lib/no_regex/string_extensions.rb:6-88 | String#is_* dispatch (digits only for is_number?, the catalog grammar otherwise), no contract; specified by StringNumberIsStricter and StringChecksAgree |
| StringExtensions.Strip | lib/no_regex/string_extensions.rb:22-24 | String#strip as rstrip after lstrip, no contract; specified through Lstrip, Rstrip, StripUnchanged and StripLeadingSpace |
| StringExtensions.IsBlank | lib/no_regex/string_extensions.rb:22-24 | `strip.empty?`, no contract; characterised by BlankIff |
| StringExtensions.SplitAcronyms | lib/no_regex/string_extensions.rb:120 | the first gsub of to_snake_case; its contract says only that the result is no shorter; SplitAcronymsInsertsUnderscores and SnakeCaseAcronymThenWord specify it |
| StringExtensions.SplitWords | lib/no_regex/string_extensions.rb:121 | the second gsub of to_snake_case; its contract says only that the result is no shorter; SplitWordsInsertsUnderscores and SnakeCaseWordThenWord specify it |
| StringExtensions.SplitOnSeparators | lib/no_regex/string_extensions.rb:127 | `split(/[_\-\s]/)` with Ruby's trailing-empty removal, no contract; specified by SplitFlatten and DropTrailingEmpty |
| StringExtensions.ToCamelCase | lib/no_regex/string_extensions.rb:126-129 | to_camel_case, Failure where parts[0] is nil, no contract; specified by the CamelCase lemmas below |
| StringExtensions.Truncate | lib/no_regex/string_extensions.rb:144-147 | truncate with Ruby's range semantics, no contract; specified by TruncateShape and TruncateOvershoot |
| StringExtensions.TruncateDefault | lib/no_regex/string_extensions.rb:144 | truncate with the default arguments 30 and "...", no contract; specified by TruncateDefaultLength |
| StringExtensions.StringNumberIsStricter | lib/no_regex/string_extensions.rb:6-8 | String#is_number? accepts exactly non-empty digit runs; it implies the catalog's is_number?, which also accepts "-1" and "1.5" |
| StringExtensions.StringChecksAgree | lib/no_regex/string_extensions.rb:10-88 | every other String#is_* check accepts exactly what its catalog grammar accepts, and none accepts "" |
| StringExtensions.BlankIff | lib/no_regex/string_extensions.rb:22-24 | is_blank? holds exactly when every character is whitespace or NUL |
| StringExtensions.Lstrip | lib/no_regex/string_extensions.rb:22-24 | the result is a suffix of the input; everything removed is whitespace or NUL, and the result does not start with either |
| StringExtensions.Rstrip | lib/no_regex/string_extensions.rb:22-24 | the result is a prefix of the input; everything removed is whitespace or NUL, and the result does not end with either |
| StringExtensions.StripUnchanged | lib/no_regex/string_extensions.rb:22-24 | strip leaves a string unchanged when it is empty or neither starts nor ends with whitespace or NUL |
| StringExtensions.StripLeadingSpace | lib/no_regex/string_extensions.rb:22-24 | strip removes one leading space from such a string, giving the string back |
| StringExtensions.NulIsBlankButAWord | lib/no_regex/string_extensions.rb:22-24 | the string "\0" is blank, yet word_count counts it as one word |
| StringExtensions.RemoveDashes | lib/no_regex/string_extensions.rb:91-93 | the result is a subsequence of the input that keeps every occurrence of every character other than '-' and no '-' |
| StringExtensions.RemoveSpaces | lib/no_regex/string_extensions.rb:95-97 | the result is a subsequence of the input that keeps every occurrence of every character other than ' ' and no ' ' |
| StringExtensions.RemoveSpecialChars | lib/no_regex/string_extensions.rb:99-101 | the result is a subsequence of the input that keeps every occurrence of every ASCII letter and digit and nothing else |
| StringExtensions.RemoveNumbers | lib/no_regex/string_extensions.rb:103-105 | the result is a subsequence of the input that keeps every occurrence of every non-digit and nothing else |
| StringExtensions.RemoveLetters | lib/no_regex/string_extensions.rb:107-109 | the result is a subsequence of the input that keeps every occurrence of every non-letter and nothing else |
| StringExtensions.KeepNumbers | lib/no_regex/string_extensions.rb:111-113 | the result is a subsequence of the input that keeps every occurrence of every digit and nothing else |
| StringExtensions.KeepLetters | lib/no_regex/string_extensions.rb:115-117 | the result is a subsequence of the input that keeps every occurrence of every letter and nothing else |
| StringExtensions.KeepRemoveLengths | lib/no_regex/string_extensions.rb:103-113 | keep_numbers and remove_numbers partition the input by length, and so do keep_letters and remove_letters |
| StringExtensions.RemoveIdempotent | lib/no_regex/string_extensions.rb:91-113 | remove_special_chars, remove_dashes, remove_numbers and keep_numbers change nothing when applied a second time |
| StringExtensions.RemoveSpecialCharsAlphanumeric | lib/no_regex/string_extensions.rb:99-101 | a non-empty result of remove_special_chars is alphanumeric, and an alphanumeric result is non-empty |
| StringExtensions.DashesToUnderscores | lib/no_regex/string_extensions.rb:122 | `tr("-", "_")` keeps the length, puts '_' where '-' was, leaves every other character and leaves no '-' |
| StringExtensions.ToSnakeCase | lib/no_regex/string_extensions.rb:119-124 | the result is at least as long as the input, has no '-' and no upper-case letter |
| StringExtensions.SplitAcronymsInsertsUnderscores | lib/no_regex/string_extensions.rb:120 | the acronym split only inserts '_': deleting underscores from its result and from its input gives the same string |
| StringExtensions.SplitWordsInsertsUnderscores | lib/no_regex/string_extensions.rb:121 | the lower-to-upper split only inserts '_' |
| StringExtensions.SnakeCaseKeepsLetters | lib/no_regex/string_extensions.rb:119-124 | with '_' removed, the result is the input lowered, with its '_' and '-' removed |
| StringExtensions.SnakeCaseIdempotent | lib/no_regex/string_extensions.rb:119-124 | snake-casing a snake-cased string changes nothing |
| StringExtensions.SnakeCaseAcronymThenWord | lib/no_regex/string_extensions.rb:119-124 | an acronym followed by a capitalised lower-case word is split before the word's capital ("HTTPServer" to "http_server") |
| StringExtensions.SnakeCaseWordThenWord | lib/no_regex/string_extensions.rb:119-124 | a word followed by a capitalised lower-case word is split between them ("helloWorld" to "hello_world") |
| StringExtensions.DropTrailingEmpty | lib/no_regex/string_extensions.rb:127 | Ruby's split drops trailing empty fields: the result is a prefix of the fields, ends in a non-empty field (or is empty), and only empty fields were dropped |
| StringExtensions.SplitFlatten | lib/no_regex/string_extensions.rb:127 | the parts of the split, concatenated, are exactly the input's non-separator characters |
| StringExtensions.CamelCaseFailsIff | lib/no_regex/string_extensions.rb:126-129 | to_camel_case fails exactly when the input consists only of separators ('_', '-', whitespace), the empty string included |
| StringExtensions.CamelCaseKeepsLetters | lib/no_regex/string_extensions.rb:126-129 | when it succeeds, the result has no separators and, lowered, equals the input's non-separators lowered |
| StringExtensions.CamelCaseTwoParts | lib/no_regex/string_extensions.rb:126-129 | two parts around one separator give the first part lowered and the second capitalised |
| StringExtensions.CamelCaseLeadingSeparator | lib/no_regex/string_extensions.rb:126-129 | after a leading separator, the first part is "" and the next part comes out capitalised |
| StringExtensions.CamelCaseLowerWords | lib/no_regex/string_extensions.rb:126-129 | two lower-case words give the first unchanged and the second with its first letter raised |
| StringExtensions.CamelCaseLeadingExample | lib/no_regex/string_extensions.rb:126-129 | "_a" becomes "A" |
| StringExtensions.CamelCaseFailureExamples | lib/no_regex/string_extensions.rb:126-129 | "", "__" and " - " fail |
| StringExtensions.ExtractNumbers | lib/no_regex/string_extensions.rb:132-134 | every extracted item is a non-empty digit run |
| StringExtensions.ExtractNumbersFlatten | lib/no_regex/string_extensions.rb:132-134 | the extracted runs, concatenated, are keep_numbers of the input |
| StringExtensions.ExtractNumbersSplit | lib/no_regex/string_extensions.rb:132-134 | a non-digit separates extraction: the runs of a+c+b are those of a followed by those of b |
| StringExtensions.ExtractNumbersLead | lib/no_regex/string_extensions.rb:132-134 | the first extracted run is the maximal digit run after the leading non-digits |
| StringExtensions.ExtractNumbersExample | lib/no_regex/string_extensions.rb:132-134 | "abc123def45" gives ["123", "45"] |
| StringExtensions.WordCount | lib/no_regex/string_extensions.rb:140-142 | the count never exceeds the length |
| StringExtensions.WordCountZeroIff | lib/no_regex/string_extensions.rb:140-142 | the count is 0 exactly when every character is whitespace |
| StringExtensions.WordCountSplit | lib/no_regex/string_extensions.rb:140-142 | a whitespace character splits the count: count(a+c+b) = count(a) + count(b) |
| StringExtensions.TruncateShape | lib/no_regex/string_extensions.rb:144-147 | a string within the limit comes back unchanged; a longer one becomes a prefix of itself followed by the ellipsis, exactly `length` long when the ellipsis fits |
| StringExtensions.PrefixBefore | lib/no_regex/string_extensions.rb:146 | `self[0...m]` is the prefix of length m, and for negative m the prefix that stops m characters from the end (empty when that is before the start) |
| StringExtensions.TruncateDefaultLength | lib/no_regex/string_extensions.rb:144-147 | with the defaults, a string longer than 30 becomes its first 27 characters and "...", and a shorter one is unchanged |
| StringExtensions.TruncateOvershoot | lib/no_regex/string_extensions.rb:144-147 | a limit shorter than the ellipsis counts back from the end (Ruby's negative range), so the result can be longer than the input |
| NumericExtensions.IsPositive | lib/no_regex/numeric_extensions.rb:5-7 | `self > 0`, no contract; SignTrichotomy |
| NumericExtensions.IsNegative | lib/no_regex/numeric_extensions.rb:9-11 | `self < 0`, no contract; SignTrichotomy |
| NumericExtensions.IsZero | lib/no_regex/numeric_extensions.rb:13-15 | `self == 0`, no contract; SignTrichotomy |
| NumericExtensions.IsEven | lib/no_regex/numeric_extensions.rb:17-19 | `(self % 2).zero?`, no contract; ParityIff |
| NumericExtensions.IsOdd | lib/no_regex/numeric_extensions.rb:21-23 | `!is_even?`, no contract; ParityIff |
| NumericExtensions.ToCurrency | lib/no_regex/numeric_extensions.rb:25-27 | the symbol followed by to_s, no contract; CurrencyReadsBack |
| NumericExtensions.ToFormatted | lib/no_regex/numeric_extensions.rb:29-31 | reverse, comma gsub, reverse, no contract; FormattedIsGrouped, FormattedDropsCommas and FormattedLayout |
| NumericExtensions.ToHex | lib/no_regex/numeric_extensions.rb:33-35 | "0x" and the upper-cased to_s(16), no contract; HexReadsBack |
| NumericExtensions.ToBinary | lib/no_regex/numeric_extensions.rb:37-39 | "0b" and to_s(2), no contract; BinaryReadsBack |
| NumericExtensions.Words | lib/no_regex/numeric_extensions.rb:41-69 | the reference reading that ToWords is proved equal to, no contract; WordsSpoken, WordsZeroIff, WordsNegative, WordsHundredIff and WordsPastTable |
| NumericExtensions.SignTrichotomy | lib/no_regex/numeric_extensions.rb:5-15 | exactly one of is_positive?, is_negative? and is_zero? holds, and negation swaps positive and negative |
| NumericExtensions.ParityIff | lib/no_regex/numeric_extensions.rb:17-23 | is_even? holds exactly when n = 2k and is_odd? exactly when n = 2k + 1 for some k; negation keeps parity and adding one flips it |
| NumericExtensions.IntToStringReadsBack | lib/no_regex/numeric_extensions.rb:33-39 | Integer#to_s(base) reads back as n: its digits (after a '-' for negatives) are base digits whose value is the magnitude |
| NumericExtensions.CurrencyReadsBack | lib/no_regex/numeric_extensions.rb:25-27 | to_currency is the symbol followed by the decimal digits, which read back as the number (after a '-' when negative) |
| NumericExtensions.CurrencyExample | lib/no_regex/numeric_extensions.rb:25-27 | 5 with "$" gives "$5" |
| NumericExtensions.HexReadsBack | lib/no_regex/numeric_extensions.rb:33-35 | to_hex is "0x", a '-' exactly for negatives, then upper-case hex digits whose value is the magnitude |
| NumericExtensions.HexExample | lib/no_regex/numeric_extensions.rb:33-35 | -255 gives "0x-FF" (the sign comes after the prefix) |
| NumericExtensions.BinaryReadsBack | lib/no_regex/numeric_extensions.rb:37-39 | to_binary is "0b", a '-' exactly for negatives, then 0/1 digits whose value is the magnitude |
| NumericExtensions.FormattedIsGrouped | lib/no_regex/numeric_extensions.rb:29-31 | the reverse-scan-reverse of to_formatted equals the sign followed by the digits grouped in threes from the right, joined by ',' |
| NumericExtensions.GroupThousandsLayout | lib/no_regex/numeric_extensions.rb:29-31 | grouping n digits in threes gives that comma layout and adds (n - 1) / 3 commas |
| NumericExtensions.FormattedDropsCommas | lib/no_regex/numeric_extensions.rb:29-31 | deleting the commas of to_formatted gives back to_s |
| NumericExtensions.FormattedLayout | lib/no_regex/numeric_extensions.rb:29-31 | the result starts with '-' exactly for negatives; after it, commas sit exactly every fourth position from the end, with digits everywhere else |
| NumericExtensions.FormattedExamples | lib/no_regex/numeric_extensions.rb:29-31 | -1234 gives "-1,234" and -123 gives "-123" (no comma after the sign) |
| NumericExtensions.ToWords | lib/no_regex/numeric_extensions.rb:41-69 | the method, with its `num` and `result` updates, returns the reference reading Words(n) for every integer |
| NumericExtensions.WordsSpoken | lib/no_regex/numeric_extensions.rb:41-69 | the reading is non-empty lower-case words separated by single spaces, with no space at either end |
| NumericExtensions.WordsZeroIff | lib/no_regex/numeric_extensions.rb:43 | the reading is "zero" exactly for 0 |
| NumericExtensions.WordsNegative | lib/no_regex/numeric_extensions.rb:68 | a negative number reads as "negative " and the reading of its magnitude, which is never "zero" |
| NumericExtensions.WordsHundredIff | lib/no_regex/numeric_extensions.rb:52-55 | the reading contains "hundred" exactly when the magnitude is at least 100 |
| NumericExtensions.WordsPastTable | lib/no_regex/numeric_extensions.rb:52-53 | past 999 the ones table has no entry: 1000 reads "hundred" and -2000 "negative hundred" |
| NumericExtensions.WordsNegativeExample | lib/no_regex/numeric_extensions.rb:57-68 | -42 reads "negative forty two" |
| NumericExtensions.WordsHundredsExample | lib/no_regex/numeric_extensions.rb:52-65 | 115 reads "one hundred fifteen" |
| ArrayExtensions.LooksNumeric | lib/no_regex/numeric_extensions.rb:126 | `item.to_s.match?` of the number grammar, no contract; DecimalIsNumber and NilIsNotNumeric |
| ArrayExtensions.LooksLikeEmail | lib/no_regex/numeric_extensions.rb:138 | `item.to_s.match?` of the email grammar, no contract; NumbersAreNotEmails |
| ArrayExtensions.AllNumbers | lib/no_regex/numeric_extensions.rb:124-127 | all_numbers?, no contract; AllNumbersIff and AllNumbersAppend |
| ArrayExtensions.AllStrings | lib/no_regex/numeric_extensions.rb:129-131 | all_strings?, no contract; AllNumbersIff (the empty array) and NilIsNotNumeric |
| ArrayExtensions.NumberCandidates | lib/no_regex/numeric_extensions.rb:133-135 | the selection is no longer than the array and every selected element's to_s is a number |
| ArrayExtensions.ExtractEmails | lib/no_regex/numeric_extensions.rb:137-139 | the selection is no longer than the array and every selected element's to_s is an email address |
| ArrayExtensions.AllNumbersIff | lib/no_regex/numeric_extensions.rb:124-127 | all_numbers? holds exactly when the array is non-empty and the number selection keeps every element; [] is not all numbers but is all strings |
| ArrayExtensions.AllNumbersAppend | lib/no_regex/numeric_extensions.rb:124-127 | two non-empty arrays are all numbers together exactly when each one is |
| ArrayExtensions.DecimalIsNumber | lib/no_regex/numeric_extensions.rb:124-127 | the to_s of every Integer matches the number grammar (and the integer grammar) |
| ArrayExtensions.IntegersAreNumbers | lib/no_regex/numeric_extensions.rb:124-135 | a non-empty array of Integers is all numbers, and the number selection keeps all of it |
| ArrayExtensions.NilIsNotNumeric | lib/no_regex/numeric_extensions.rb:124-139 | an array holding nil is neither all numbers nor all strings, and neither selection keeps nil |
| ArrayExtensions.NumberCandidatesSelect | lib/no_regex/numeric_extensions.rb:133-135 | the selection is an ordered subsequence, keeps an element exactly when it occurs and its to_s is a number, and selecting again changes nothing |
| ArrayExtensions.ExtractEmailsSelect | lib/no_regex/numeric_extensions.rb:137-139 | the selection is an ordered subsequence, keeps an element exactly when it occurs and its to_s is an email address, and selecting again changes nothing |
| ArrayExtensions.SelectAppend | lib/no_regex/numeric_extensions.rb:133-139 | both selections distribute over concatenation |
| ArrayExtensions.NumbersAreNotEmails | lib/no_regex/numeric_extensions.rb:133-139 | no element is selected by both extract_numbers and extract_emails |
| ArrayExtensions.NilAnswer | lib/no_regex/numeric_extensions.rb:104-120 | nil answers true to is_blank? and false to is_number?, is_letters? and is_email? |
| ArrayExtensions.NilAnswersAsEmptyString | lib/no_regex/numeric_extensions.rb:104-120 | for each of these checks, nil answers what the String check answers for "" (nil.to_s) |

## Left out

- The Float extensions (numeric_extensions.rb:72-101) are not modelled: they compute with floating point.
- The `.map(&:to_f)` step of `Array#extract_numbers` is left out because it converts to floating point. `ArrayExtensions.NumberCandidates` models the selection before it.
- `String#extract_emails` is not modelled. The grammar has a capture group, so Ruby's `scan` returns the last domain group of each match, not the address. Modelling that needs the regular-expression engine's capture semantics.
- lib/no_regex/rails_validators.rb and lib/no_regex.rb are not part of this model. They hold the Rails validator integration and the library's loading.
- Only ASCII behaviour is modelled. Ruby's case mapping and `/i` matching on non-ASCII characters, and multi-byte strings, are not represented.
- Array elements are modelled by their class and the text of their `to_s`. An element other than a String, an Integer or nil is given by that text.
- `NumericExtensions.ToCurrency` takes the symbol as a parameter. Ruby's default argument "$" is the caller passing "$".
