/**
 * The String extensions of NoRegex: the `is_*` checks, String#strip and
 * `is_blank?`, the removing and keeping filters, snake and camel case,
 * number extraction, word count and truncation (ASCII text).
 */
module StringExtensions {
  import opened Chars
  import opened Seqs
  import opened Patterns
  import PatternProperties

  // ---------------------------------------------------------------------------
  // Checks

  /**
   * String#is_*: every check uses its catalog grammar except is_number?,
   * which on strings is `\A\d+\z` (digits only, no sign, no dot).
   */
  predicate StringMatches(r: Rule, s: string) {
    if r == Number then Plus(s, IsDigit) else Matches(r, s)
  }

  /** String#is_number? is stricter than the catalog's is_number?. */
  lemma StringNumberIsStricter(s: string)
    ensures StringMatches(Number, s) <==> Plus(s, IsDigit)
    ensures StringMatches(Number, s) ==> Matches(Number, s)
    ensures Matches(Number, "-1") && !StringMatches(Number, "-1")
    ensures Matches(Number, "1.5") && !StringMatches(Number, "1.5")
  {
    PatternProperties.NumberOfDigits("1");
    assert "-1" == "-" + "1" && "-1"[0] == '-';
    PatternProperties.DecimalOfParts("1", "5");
    assert "1.5" == "1" + "." + "5";
    assert "1.5"[1] == '.';
  }

  /** Every other check agrees with the catalog, and the empty string passes none of them. */
  lemma StringChecksAgree(r: Rule, s: string)
    ensures r != Number ==> (StringMatches(r, s) <==> Matches(r, s))
    ensures !StringMatches(r, "")
  {
  }

  // ---------------------------------------------------------------------------
  // strip and is_blank?

  /** What String#strip removes: ASCII whitespace and NUL. */
  predicate IsStripped(c: char) { IsSpace(c) || c == Nul }

  /** String#lstrip: the suffix left after dropping leading whitespace and NUL. */
  function Lstrip(s: string): (r: string)
    ensures |r| <= |s| && r == s[|s| - |r|..]
    ensures All(s[..|s| - |r|], IsStripped)
    ensures r == [] || !IsStripped(r[0])
    decreases |s|
  {
    if s != [] && IsStripped(s[0]) then
      var r := Lstrip(s[1..]);
      assert s[|s| - |r|..] == s[1..][|s| - 1 - |r|..];
      assert s[..|s| - |r|] == [s[0]] + s[1..][..|s| - 1 - |r|];
      r
    else s
  }

  /** String#rstrip: the prefix left after dropping trailing whitespace and NUL. */
  function Rstrip(s: string): (r: string)
    ensures |r| <= |s| && r == s[..|r|]
    ensures All(s[|r|..], IsStripped)
    ensures r == [] || !IsStripped(r[|r| - 1])
    decreases |s|
  {
    if s != [] && IsStripped(s[|s| - 1]) then
      var t := s[..|s| - 1];
      var r := Rstrip(t);
      assert forall i :: |r| <= i < |t| ==> IsStripped(t[i]) by {
        forall i | |r| <= i < |t| ensures IsStripped(t[i]) { assert t[i] == t[|r|..][i - |r|]; }
      }
      r
    else s
  }

  /** String#strip. */
  function Strip(s: string): string {
    Rstrip(Lstrip(s))
  }

  /** String#is_blank?: nothing is left after strip. */
  predicate IsBlank(s: string) {
    Strip(s) == []
  }

  /** A string is blank exactly when every character is whitespace or NUL. */
  lemma BlankIff(s: string)
    ensures IsBlank(s) <==> All(s, IsStripped)
  {
    LstripAllStripped(s);
    RstripAllStripped(Lstrip(s));
  }

  lemma LstripAllStripped(s: string)
    ensures Lstrip(s) == [] <==> All(s, IsStripped)
  {
    var l := Lstrip(s);
    var k := |s| - |l|;
    if l == [] {
      assert s[..k] == s;
    } else {
      assert l[0] == s[k] && !IsStripped(s[k]);
      assert !All(s, IsStripped) by { assert 0 <= k < |s|; }
    }
  }

  lemma RstripAllStripped(s: string)
    ensures Rstrip(s) == [] <==> All(s, IsStripped)
  {
    var r := Rstrip(s);
    if r == [] {
      assert s[|r|..] == s;
    } else {
      assert r[|r| - 1] == s[|r| - 1];
    }
  }

  /** strip leaves a string with no whitespace or NUL at either end unchanged. */
  lemma StripUnchanged(s: string)
    requires s == [] || (!IsStripped(s[0]) && !IsStripped(s[|s| - 1]))
    ensures Strip(s) == s
  {
  }

  /** strip removes one leading space from such a string. */
  lemma StripLeadingSpace(s: string)
    requires s == [] || (!IsStripped(s[0]) && !IsStripped(s[|s| - 1]))
    ensures Strip(" " + s) == s
  {
    assert (" " + s)[1..] == s;
  }

  // ---------------------------------------------------------------------------
  // Removing and keeping characters

  predicate IsNotDash(c: char) { c != '-' }
  predicate IsNotBlankSpace(c: char) { c != ' ' }

  /** String#remove_dashes: every '-' deleted, everything else kept in order. */
  function RemoveDashes(s: string): (r: string)
    ensures IsSubsequence(r, s)
    ensures forall c :: c in r <==> c in s && c != '-'
    ensures forall c :: multiset(r)[c] == if c != '-' then multiset(s)[c] else 0
  {
    FilterIsSubsequence(s, IsNotDash);
    FilterMembershipAll(s, IsNotDash);
    Filter(s, IsNotDash)
  }

  /** String#remove_spaces: only ' ' is deleted (tabs and newlines stay). */
  function RemoveSpaces(s: string): (r: string)
    ensures IsSubsequence(r, s)
    ensures forall c :: c in r <==> c in s && c != ' '
    ensures forall c :: multiset(r)[c] == if c != ' ' then multiset(s)[c] else 0
  {
    FilterIsSubsequence(s, IsNotBlankSpace);
    FilterMembershipAll(s, IsNotBlankSpace);
    Filter(s, IsNotBlankSpace)
  }

  /** String#remove_special_chars: only letters and digits survive. */
  function RemoveSpecialChars(s: string): (r: string)
    ensures IsSubsequence(r, s)
    ensures forall c :: c in r <==> c in s && IsAlnum(c)
    ensures forall c :: multiset(r)[c] == if IsAlnum(c) then multiset(s)[c] else 0
  {
    FilterIsSubsequence(s, IsAlnum);
    FilterMembershipAll(s, IsAlnum);
    Filter(s, IsAlnum)
  }

  /** String#remove_numbers: every digit deleted. */
  function RemoveNumbers(s: string): (r: string)
    ensures IsSubsequence(r, s)
    ensures forall c :: c in r <==> c in s && !IsDigit(c)
    ensures forall c :: multiset(r)[c] == if !IsDigit(c) then multiset(s)[c] else 0
  {
    FilterIsSubsequence(s, IsNonDigit);
    FilterMembershipAll(s, IsNonDigit);
    Filter(s, IsNonDigit)
  }

  /** String#remove_letters: every ASCII letter deleted. */
  function RemoveLetters(s: string): (r: string)
    ensures IsSubsequence(r, s)
    ensures forall c :: c in r <==> c in s && !IsLetter(c)
    ensures forall c :: multiset(r)[c] == if !IsLetter(c) then multiset(s)[c] else 0
  {
    FilterIsSubsequence(s, IsNonLetter);
    FilterMembershipAll(s, IsNonLetter);
    Filter(s, IsNonLetter)
  }

  /** String#keep_numbers: only the digits, in order. */
  function KeepNumbers(s: string): (r: string)
    ensures IsSubsequence(r, s)
    ensures forall c :: c in r <==> c in s && IsDigit(c)
    ensures forall c :: multiset(r)[c] == if IsDigit(c) then multiset(s)[c] else 0
  {
    FilterIsSubsequence(s, IsDigit);
    FilterMembershipAll(s, IsDigit);
    Filter(s, IsDigit)
  }

  /** String#keep_letters: only the letters, in order. */
  function KeepLetters(s: string): (r: string)
    ensures IsSubsequence(r, s)
    ensures forall c :: c in r <==> c in s && IsLetter(c)
    ensures forall c :: multiset(r)[c] == if IsLetter(c) then multiset(s)[c] else 0
  {
    FilterIsSubsequence(s, IsLetter);
    FilterMembershipAll(s, IsLetter);
    Filter(s, IsLetter)
  }

  /** Which characters a selection keeps, and how often: every occurrence of a kept one. */
  lemma FilterMembershipAll(s: string, p: char -> bool)
    ensures forall c :: c in Filter(s, p) <==> c in s && p(c)
    ensures forall c :: multiset(Filter(s, p))[c] == if p(c) then multiset(s)[c] else 0
  {
    forall c ensures c in Filter(s, p) <==> c in s && p(c) {
      FilterMembership(s, p, c);
    }
    forall c ensures multiset(Filter(s, p))[c] == if p(c) then multiset(s)[c] else 0 {
      FilterMultiset(s, p, c);
    }
  }

  /** Keeping and removing the same class split the string: the lengths add up. */
  lemma KeepRemoveLengths(s: string)
    ensures |KeepNumbers(s)| + |RemoveNumbers(s)| == |s|
    ensures |KeepLetters(s)| + |RemoveLetters(s)| == |s|
  {
    FilterComplementLength(s, IsDigit, IsNonDigit);
    FilterComplementLength(s, IsLetter, IsNonLetter);
  }

  /** Removing again removes nothing more. */
  lemma RemoveIdempotent(s: string)
    ensures RemoveSpecialChars(RemoveSpecialChars(s)) == RemoveSpecialChars(s)
    ensures RemoveDashes(RemoveDashes(s)) == RemoveDashes(s)
    ensures RemoveNumbers(RemoveNumbers(s)) == RemoveNumbers(s)
    ensures KeepNumbers(KeepNumbers(s)) == KeepNumbers(s)
  {
    FilterIdempotent(s, IsAlnum);
    FilterIdempotent(s, IsNotDash);
    FilterIdempotent(s, IsNonDigit);
    FilterIdempotent(s, IsDigit);
  }

  /** After removing special characters, is_alphanumeric? holds unless nothing was left. */
  lemma RemoveSpecialCharsAlphanumeric(s: string)
    ensures RemoveSpecialChars(s) != [] <==> IsAlphanumeric(RemoveSpecialChars(s))
  {
  }

  // ---------------------------------------------------------------------------
  // Snake case

  /**
   * First substitution of to_snake_case, `([A-Z]+)([A-Z][a-z])` to `\1_\2`,
   * scanned left to right: a run of two or more capitals followed by a
   * lower-case letter gets '_' before its last capital ("XMLParser" to
   * "XML_Parser"); the scan resumes after the lower-case letter.
   */
  function SplitAcronyms(s: string): (r: string)
    ensures |r| >= |s|
    decreases |s|
  {
    if s == [] then []
    else
      var n := AcronymSkip(s);
      AcronymEmit(s, n) + SplitAcronyms(s[n..])
  }

  /**
   * How far the scan advances from the start of s: past the match when one
   * starts there (the capitals and the lower-case letter), else past one
   * character.
   */
  function AcronymSkip(s: string): (n: nat)
    requires s != []
    ensures 1 <= n <= |s|
  {
    var k := SpanLength(s, IsUpper);
    if 2 <= k < |s| && IsLower(s[k]) then k + 1 else 1
  }

  /** What the scan emits for what it advances over: the match with '_' inserted, or the character. */
  function AcronymEmit(s: string, n: nat): (r: string)
    requires 1 <= n <= |s|
    ensures |r| >= n
  {
    if n == 1 then [s[0]] else s[..n - 2] + "_" + s[n - 2..n]
  }

  /**
   * Second substitution, `([a-z\d])([A-Z])` to `\1_\2`: '_' between a
   * lower-case letter or digit and the capital after it; the scan resumes
   * after the capital.
   */
  function SplitWords(s: string): (r: string)
    ensures |r| >= |s|
    decreases |s|
  {
    if |s| < 2 then s
    else if (IsLower(s[0]) || IsDigit(s[0])) && IsUpper(s[1]) then [s[0], '_', s[1]] + SplitWords(s[2..])
    else [s[0]] + SplitWords(s[1..])
  }

  /** `tr("-", "_")`. */
  function DashesToUnderscores(s: string): (r: string)
    ensures |r| == |s| && '-' !in r
    ensures forall i :: 0 <= i < |s| ==> r[i] == if s[i] == '-' then '_' else s[i]
  {
    seq(|s|, i requires 0 <= i < |s| => if s[i] == '-' then '_' else s[i])
  }

  /** String#to_snake_case. */
  function ToSnakeCase(s: string): (r: string)
    ensures |r| >= |s|
    ensures '-' !in r
    ensures forall i :: 0 <= i < |r| ==> !IsUpper(r[i])
  {
    Downcase(DashesToUnderscores(SplitWords(SplitAcronyms(s))))
  }

  predicate IsNotUnderscore(c: char) { c != '_' }
  predicate IsNotUnderscoreOrDash(c: char) { c != '_' && c != '-' }

  /** Deleting underscores undoes inserting one. */
  lemma FilterInsertedUnderscore(a: string, b: string)
    ensures Filter(a + "_" + b, IsNotUnderscore) == Filter(a + b, IsNotUnderscore)
  {
    FilterAppend(a + "_", b, IsNotUnderscore);
    FilterAppend(a, "_", IsNotUnderscore);
    FilterAppend(a, b, IsNotUnderscore);
  }

  /** An underscore inserted in front of b, with tails that agree once underscores are deleted. */
  lemma FilterInsertUnderscore(a: string, b: string, t: string, rest: string)
    requires Filter(t, IsNotUnderscore) == Filter(rest, IsNotUnderscore)
    ensures Filter(a + "_" + (b + t), IsNotUnderscore) == Filter(a + (b + rest), IsNotUnderscore)
  {
    FilterInsertedUnderscore(a, b + t);
    FilterAppend(a, b + t, IsNotUnderscore);
    FilterAppend(b, t, IsNotUnderscore);
    FilterAppend(a, b + rest, IsNotUnderscore);
    FilterAppend(b, rest, IsNotUnderscore);
  }

  /** One character kept in front of tails that agree once underscores are deleted. */
  lemma FilterConsUnderscore(c: char, t: string, rest: string)
    requires Filter(t, IsNotUnderscore) == Filter(rest, IsNotUnderscore)
    ensures Filter([c] + t, IsNotUnderscore) == Filter([c] + rest, IsNotUnderscore)
  {
    FilterAppend([c], t, IsNotUnderscore);
    FilterAppend([c], rest, IsNotUnderscore);
  }

  lemma AcronymUnfold(s: string, k: nat)
    requires k == SpanLength(s, IsUpper) && 2 <= k < |s| && IsLower(s[k])
    ensures AcronymSkip(s) == k + 1
    ensures SplitAcronyms(s) == s[..k - 1] + "_" + (s[k - 1..k + 1] + SplitAcronyms(s[k + 1..]))
  {
    AcronymEmitAt(s, k);
    var a, b, t := s[..k - 1], s[k - 1..k + 1], SplitAcronyms(s[k + 1..]);
    assert SplitAcronyms(s) == a + "_" + b + t;
    AppendAssoc(a + "_", b, t);
  }

  lemma AcronymEmitAt(s: string, k: nat)
    requires k == SpanLength(s, IsUpper) && 2 <= k < |s| && IsLower(s[k])
    ensures AcronymSkip(s) == k + 1
    ensures AcronymEmit(s, k + 1) == s[..k - 1] + "_" + s[k - 1..k + 1]
  {
  }

  lemma AcronymUnderscoreStep(s: string, k: nat)
    requires k == SpanLength(s, IsUpper) && 2 <= k < |s| && IsLower(s[k])
    requires Filter(SplitAcronyms(s[k + 1..]), IsNotUnderscore) == Filter(s[k + 1..], IsNotUnderscore)
    ensures Filter(SplitAcronyms(s), IsNotUnderscore) == Filter(s, IsNotUnderscore)
  {
    var a, b, rest := s[..k - 1], s[k - 1..k + 1], s[k + 1..];
    AcronymUnfold(s, k);
    SplitThree(s, k - 1, k + 1);
    FilterInsertUnderscore(a, b, SplitAcronyms(rest), rest);
  }

  lemma AcronymPlainStep(s: string)
    requires s != [] && AcronymSkip(s) == 1
    requires Filter(SplitAcronyms(s[1..]), IsNotUnderscore) == Filter(s[1..], IsNotUnderscore)
    ensures Filter(SplitAcronyms(s), IsNotUnderscore) == Filter(s, IsNotUnderscore)
  {
    assert s == [s[0]] + s[1..];
    FilterConsUnderscore(s[0], SplitAcronyms(s[1..]), s[1..]);
  }

  /** The substitutions only insert underscores. */
  lemma {:induction false} SplitAcronymsInsertsUnderscores(s: string)
    ensures Filter(SplitAcronyms(s), IsNotUnderscore) == Filter(s, IsNotUnderscore)
    decreases |s|
  {
    if s != [] {
      var k := SpanLength(s, IsUpper);
      if 2 <= k < |s| && IsLower(s[k]) {
        SplitAcronymsInsertsUnderscores(s[k + 1..]);
        AcronymUnderscoreStep(s, k);
      } else {
        assert AcronymSkip(s) == 1;
        SplitAcronymsInsertsUnderscores(s[1..]);
        AcronymPlainStep(s);
      }
    }
  }

  lemma {:induction false} SplitWordsInsertsUnderscores(s: string)
    ensures Filter(SplitWords(s), IsNotUnderscore) == Filter(s, IsNotUnderscore)
    decreases |s|
  {
    if |s| >= 2 {
      if WordBoundary(s, 0) {
        var rest := s[2..];
        SplitWordsInsertsUnderscores(rest);
        SplitWordsBoundaryStep(s);
        FilterInsertUnderscore([s[0]], [s[1]], SplitWords(rest), rest);
      } else {
        SplitWordsInsertsUnderscores(s[1..]);
        SplitWordsPlainStep(s);
        assert s == [s[0]] + s[1..];
        FilterConsUnderscore(s[0], SplitWords(s[1..]), s[1..]);
      }
    }
  }

  lemma {:induction false} DashesFilter(s: string)
    ensures Filter(DashesToUnderscores(s), IsNotUnderscore) == Filter(s, IsNotUnderscoreOrDash)
    decreases |s|
  {
    if s != [] {
      DashesFilter(s[1..]);
      assert DashesToUnderscores(s)[1..] == DashesToUnderscores(s[1..]);
    }
  }

  lemma {:induction false} DowncaseFilter(s: string)
    ensures Filter(Downcase(s), IsNotUnderscore) == Downcase(Filter(s, IsNotUnderscore))
    decreases |s|
  {
    if s != [] {
      DowncaseFilter(s[1..]);
      assert Downcase(s)[1..] == Downcase(s[1..]);
      DowncaseAppend(if IsNotUnderscore(s[0]) then [s[0]] else [], Filter(s[1..], IsNotUnderscore));
    }
  }

  /**
   * to_snake_case only inserts underscores, turns '-' into '_' and lowers
   * case: with every '_' and '-' deleted, the result is the lower-cased input.
   */
  lemma SnakeCaseKeepsLetters(s: string)
    ensures Filter(ToSnakeCase(s), IsNotUnderscore) == Downcase(Filter(s, IsNotUnderscoreOrDash))
  {
    var a := SplitAcronyms(s);
    var w := SplitWords(a);
    var d := DashesToUnderscores(w);
    DowncaseFilter(d);
    DashesFilter(w);
    SplitWordsInsertsUnderscores(a);
    SplitAcronymsInsertsUnderscores(s);
    WordCharacterFilter(s);
    WordCharacterFilter(w);
    assert Filter(w, IsNotUnderscore) == Filter(s, IsNotUnderscore);
  }

  /** Deleting '_' and '-' is deleting '_' after deleting '-'. */
  lemma {:induction false} WordCharacterFilter(s: string)
    ensures Filter(s, IsNotUnderscoreOrDash) == Filter(Filter(s, IsNotUnderscore), IsNotDash)
    decreases |s|
  {
    if s != [] {
      WordCharacterFilter(s[1..]);
      FilterAppend(if IsNotUnderscore(s[0]) then [s[0]] else [], Filter(s[1..], IsNotUnderscore), IsNotDash);
    }
  }

  lemma SplitAcronymsNoUpper(s: string)
    requires forall i :: 0 <= i < |s| ==> !IsUpper(s[i])
    ensures SplitAcronyms(s) == s
  {
    SplitAcronymsNoPair(s);
  }

  lemma {:induction false} SplitWordsNoUpper(s: string)
    requires forall i :: 0 <= i < |s| ==> !IsUpper(s[i])
    ensures SplitWords(s) == s
    decreases |s|
  {
    if |s| >= 2 {
      SplitWordsNoUpper(s[1..]);
    }
  }

  /** Converting to snake case a second time changes nothing. */
  lemma SnakeCaseIdempotent(s: string)
    ensures ToSnakeCase(ToSnakeCase(s)) == ToSnakeCase(s)
  {
    var t := ToSnakeCase(s);
    SplitAcronymsNoUpper(t);
    SplitWordsNoUpper(t);
    assert DashesToUnderscores(t) == t;
    assert Downcase(t) == t;
  }

  /** Where the second substitution applies: a lower-case letter or digit, then a capital. */
  predicate WordBoundary(s: string, i: int) {
    0 <= i && i + 1 < |s| && (IsLower(s[i]) || IsDigit(s[i])) && IsUpper(s[i + 1])
  }

  /** The scan rewrites the first boundary and resumes after its capital. */
  lemma {:induction false} SplitWordsAt(s: string, i: nat)
    requires WordBoundary(s, i)
    requires forall j :: 0 <= j < i ==> !WordBoundary(s, j)
    ensures SplitWords(s) == s[..i] + [s[i], '_', s[i + 1]] + SplitWords(s[i + 2..])
    decreases i
  {
    if i == 0 {
      assert s[..i] == [];
    } else {
      var t := s[1..];
      SplitWordsPlainStep(s);
      NoWordBoundaryShift(s, i);
      SplitWordsAt(t, i - 1);
      assert t[i - 1 + 2..] == s[i + 2..] && [t[i - 1], '_', t[i]] == [s[i], '_', s[i + 1]];
      assert s[..i] == [s[0]] + t[..i - 1];
      ConsThree(s[0], t[..i - 1], [s[i], '_', s[i + 1]], SplitWords(s[i + 2..]));
    }
  }

  /** A boundary at 0: the scan emits the pair with '_' between and resumes after it. */
  lemma SplitWordsBoundaryStep(s: string)
    requires WordBoundary(s, 0)
    ensures SplitWords(s) == [s[0]] + "_" + ([s[1]] + SplitWords(s[2..]))
    ensures s == [s[0]] + ([s[1]] + s[2..])
  {
    assert [s[0], '_', s[1]] == [s[0]] + "_" + [s[1]];
    AppendAssoc([s[0]] + "_", [s[1]], SplitWords(s[2..]));
  }

  /** Without a boundary at 0 the scan copies the first character. */
  lemma SplitWordsPlainStep(s: string)
    requires |s| >= 2 && !WordBoundary(s, 0)
    ensures SplitWords(s) == [s[0]] + SplitWords(s[1..])
  {
  }

  /** The boundaries of s[1..] are those of s, shifted by one. */
  lemma NoWordBoundaryShift(s: string, i: nat)
    requires 0 < i && WordBoundary(s, i)
    requires forall j :: 0 <= j < i ==> !WordBoundary(s, j)
    ensures WordBoundary(s[1..], i - 1)
    ensures forall j :: 0 <= j < i - 1 ==> !WordBoundary(s[1..], j)
  {
    var t := s[1..];
    forall j | 0 <= j < i - 1 ensures !WordBoundary(t, j) {
      assert !WordBoundary(s, j + 1);
    }
  }

  lemma ConsThree(c: char, a: string, m: string, r: string)
    ensures [c] + (a + m + r) == [c] + a + m + r
  {
    AppendAssoc([c], a + m, r);
    AppendAssoc([c], a, m);
  }

  /** Without a boundary the second substitution changes nothing. */
  lemma {:induction false} SplitWordsNone(s: string)
    requires forall j :: 0 <= j < |s| ==> !WordBoundary(s, j)
    ensures SplitWords(s) == s
    decreases |s|
  {
    if |s| >= 2 {
      assert !WordBoundary(s, 0);
      var t := s[1..];
      forall j | 0 <= j < |t| ensures !WordBoundary(t, j) {
        assert !WordBoundary(s, j + 1);
      }
      SplitWordsNone(t);
    }
  }

  /** Without two adjacent capitals the first substitution changes nothing. */
  lemma {:induction false} SplitAcronymsNoPair(s: string)
    requires forall j :: 0 <= j < |s| - 1 ==> !(IsUpper(s[j]) && IsUpper(s[j + 1]))
    ensures SplitAcronyms(s) == s
    decreases |s|
  {
    if s != [] {
      var k := SpanLength(s, IsUpper);
      assert k < 2 by {
        if |s| >= 2 {
          assert !(IsUpper(s[0]) && IsUpper(s[1]));
        }
      }
      assert AcronymSkip(s) == 1;
      SplitAcronymsNoPair(s[1..]);
    }
  }

  /** Nothing to replace: a string without '-' is its own DashesToUnderscores. */
  lemma DashesNone(s: string)
    requires '-' !in s
    ensures DashesToUnderscores(s) == s
  {
  }

  lemma AcronymShape(a: string, u: char, w: string)
    requires |w| >= 1
    ensures var s, k := a + [u] + w, |a| + 1;
      s[..k - 1] == a && s[k - 1..k + 1] == [u, w[0]] && s[k + 1..] == w[1..] && s[k] == w[0]
    ensures a + "_" + [u, w[0]] + w[1..] == a + "_" + ([u] + w)
  {
  }

  lemma AcronymSplit(a: string, u: char, w: string)
    requires |a| >= 1 && All(a, IsUpper) && IsUpper(u)
    requires |w| >= 1 && All(w, IsLower)
    ensures SplitAcronyms(a + [u] + w) == a + "_" + ([u] + w)
  {
    var s := a + [u] + w;
    var k := |a| + 1;
    AcronymShape(a, u, w);
    SpanLengthAt(s, IsUpper, k);
    SplitAcronymsNoPair(w[1..]);
    AcronymUnfold(s, k);
  }


  lemma AcronymNoBoundary(a: string, u: char, w: string)
    requires All(a, IsUpper) && All(w, IsLower)
    ensures SplitWords(a + "_" + ([u] + w)) == a + "_" + ([u] + w)
  {
    var t := a + "_" + ([u] + w);
    forall j | 0 <= j < |t| ensures !WordBoundary(t, j) {
      if j + 1 < |t| && IsUpper(t[j + 1]) {
        assert j + 1 < |a| || j == |a|;
      }
    }
    SplitWordsNone(t);
  }

  /** Lower-casing a word, an underscore and a word. */
  lemma LowerJoined(x: string, y: string)
    requires '-' !in x && '-' !in y
    ensures Downcase(DashesToUnderscores(x + "_" + y)) == Downcase(x) + "_" + Downcase(y)
  {
    DashesNone(x + "_" + y);
    DowncaseAppend(x + "_", y);
    DowncaseAppend(x, "_");
  }

  /**
   * An acronym followed by a capitalized word ("XMLParser"): '_' before the
   * word's capital, then everything lower-cased ("xml_parser").
   */
  lemma SnakeCaseAcronymThenWord(a: string, u: char, w: string)
    requires |a| >= 1 && All(a, IsUpper) && IsUpper(u)
    requires |w| >= 1 && All(w, IsLower)
    ensures ToSnakeCase(a + [u] + w) == Downcase(a) + "_" + Downcase([u] + w)
  {
    AcronymSplit(a, u, w);
    AcronymNoBoundary(a, u, w);
    LowerJoined(a, [u] + w);
  }

  lemma UnderscoreBeforeLast(x: string, u: char, w: string)
    requires |x| >= 1
    ensures var s, i := x + [u] + w, |x| - 1; s[..i] + [s[i], '_', s[i + 1]] == x + "_" + [u] && s[i + 2..] == w
  {
  }

  lemma WordSplit(x: string, u: char, w: string)
    requires |x| >= 1 && forall i :: 1 <= i < |x| ==> IsLower(x[i])
    requires IsLower(x[|x| - 1]) && IsUpper(u) && All(w, IsLower)
    ensures SplitWords(x + [u] + w) == x + "_" + ([u] + w)
  {
    var s := x + [u] + w;
    var i := |x| - 1;
    forall j | 0 <= j < i ensures !WordBoundary(s, j) {
      assert IsLower(s[j + 1]);
    }
    SplitWordsAt(s, i);
    UnderscoreBeforeLast(x, u, w);
    SplitWordsNone(w);
    AppendAssoc(x + "_", [u], w);
  }

  lemma WordNoPair(x: string, u: char, w: string)
    requires |x| >= 1 && forall i :: 1 <= i < |x| ==> IsLower(x[i])
    requires IsLower(x[|x| - 1]) && All(w, IsLower)
    ensures SplitAcronyms(x + [u] + w) == x + [u] + w
  {
    var s := x + [u] + w;
    forall j | 0 <= j < |s| - 1 ensures !(IsUpper(s[j]) && IsUpper(s[j + 1])) {
      if j + 1 < |x| {
        assert IsLower(s[j + 1]);
      } else if j + 1 == |x| {
        assert IsLower(s[j]);
      } else {
        assert IsLower(s[j + 1]);
      }
    }
    SplitAcronymsNoPair(s);
  }

  /**
   * A word whose last letter is lower case followed by a capitalized word
   * ("myVar", "HelloWorld"): '_' between them, then everything lower-cased.
   */
  lemma SnakeCaseWordThenWord(x: string, u: char, w: string)
    requires |x| >= 1 && IsLetter(x[0]) && forall i :: 1 <= i < |x| ==> IsLower(x[i])
    requires IsLower(x[|x| - 1]) && IsUpper(u) && All(w, IsLower)
    ensures ToSnakeCase(x + [u] + w) == Downcase(x) + "_" + Downcase([u] + w)
  {
    WordNoPair(x, u, w);
    WordSplit(x, u, w);
    LowerJoined(x, [u] + w);
  }

  // ---------------------------------------------------------------------------
  // Camel case

  /** The class `[_\-\s]` to_camel_case splits on. */
  predicate IsCamelSeparator(c: char) { c == '_' || c == '-' || IsSpace(c) }
  predicate IsCamelPart(c: char) { !IsCamelSeparator(c) }

  /** What String#split does after splitting: trailing empty fields are dropped. */
  function DropTrailingEmpty(f: seq<string>): (r: seq<string>)
    ensures |r| <= |f| && r == f[..|r|]
    ensures r == [] || r[|r| - 1] != []
    ensures forall i :: |r| <= i < |f| ==> f[i] == []
    decreases |f|
  {
    if f != [] && f[|f| - 1] == [] then
      var r := DropTrailingEmpty(f[..|f| - 1]);
      assert forall i :: |r| <= i < |f| - 1 ==> f[i] == f[..|f| - 1][i];
      r
    else f
  }

  /** `split(/[_\-\s]/)`. */
  function SplitOnSeparators(s: string): seq<string> {
    DropTrailingEmpty(Pieces(s, IsCamelPart))
  }

  /** Ruby's outcome: a value, or the exception raised. */
  datatype Result<T> = Ok(value: T) | Failure(error: string)

  /** Capitalize every part and concatenate (`map(&:capitalize).join`). */
  function CapitalizeAll(ps: seq<string>): (r: string)
    ensures |r| == |Flatten(ps)|
  {
    if ps == [] then [] else Capitalize(ps[0]) + CapitalizeAll(ps[1..])
  }

  /**
   * String#to_camel_case: the first part lower-cased, the others
   * capitalized. When the split leaves no part at all, `parts[0]` is nil and
   * calling downcase on it raises NoMethodError.
   */
  function ToCamelCase(s: string): Result<string> {
    var parts := SplitOnSeparators(s);
    if parts == [] then Failure("NoMethodError: undefined method 'downcase' for nil")
    else Ok(Downcase(parts[0]) + CapitalizeAll(parts[1..]))
  }

  lemma {:induction false} DropTrailingEmptyFlatten(f: seq<string>)
    ensures Flatten(DropTrailingEmpty(f)) == Flatten(f)
    decreases |f|
  {
    if f != [] && f[|f| - 1] == [] {
      DropTrailingEmptyFlatten(f[..|f| - 1]);
      assert f == f[..|f| - 1] + [[]];
      FlattenAppend(f[..|f| - 1], [[]]);
    }
  }

  /** The parts, put back together, are the input without its separators. */
  lemma SplitFlatten(s: string)
    ensures Flatten(SplitOnSeparators(s)) == Filter(s, IsCamelPart)
  {
    PiecesFlatten(s, IsCamelPart);
    DropTrailingEmptyFlatten(Pieces(s, IsCamelPart));
  }

  lemma {:induction false} FlattenEmpty(f: seq<string>)
    ensures Flatten(f) == [] <==> forall i :: 0 <= i < |f| ==> f[i] == []
    decreases |f|
  {
    if f != [] {
      FlattenEmpty(f[1..]);
      assert forall i :: 1 <= i < |f| ==> f[i] == f[1..][i - 1];
    }
  }

  /** to_camel_case raises exactly when the string is made of separators only ("" included). */
  lemma CamelCaseFailsIff(s: string)
    ensures ToCamelCase(s).Failure? <==> All(s, IsCamelSeparator)
  {
    var f := Pieces(s, IsCamelPart);
    var parts := DropTrailingEmpty(f);
    SplitFlatten(s);
    PiecesFlatten(s, IsCamelPart);
    FlattenEmpty(f);
    FlattenEmpty(parts);
    FilterDropsAll(s, IsCamelPart);
    assert All(s, IsCamelSeparator) <==> All(s, x => !IsCamelPart(x));
    if parts != [] {
      assert parts[|parts| - 1] != [];
    }
  }

  lemma {:induction false} DowncaseCapitalizeAll(ps: seq<string>)
    ensures Downcase(CapitalizeAll(ps)) == Downcase(Flatten(ps))
    decreases |ps|
  {
    if ps != [] {
      DowncaseCapitalizeAll(ps[1..]);
      DowncaseAppend(Capitalize(ps[0]), CapitalizeAll(ps[1..]));
      DowncaseAppend(ps[0], Flatten(ps[1..]));
      DowncaseCapitalize(ps[0]);
    }
  }

  /**
   * Up to case, the camel-case result is the input with its separators
   * deleted; and it contains no separator.
   */
  lemma CamelCaseKeepsLetters(s: string)
    requires ToCamelCase(s).Ok?
    ensures Downcase(ToCamelCase(s).value) == Downcase(Filter(s, IsCamelPart))
    ensures All(ToCamelCase(s).value, IsCamelPart)
  {
    var parts := SplitOnSeparators(s);
    var r := ToCamelCase(s).value;
    SplitFlatten(s);
    DowncaseCapitalizeAll(parts[1..]);
    DowncaseAppend(Downcase(parts[0]), CapitalizeAll(parts[1..]));
    DowncaseAppend(parts[0], Flatten(parts[1..]));
    assert Downcase(Downcase(parts[0])) == Downcase(parts[0]);
    assert Flatten(parts) == parts[0] + Flatten(parts[1..]);
    assert Downcase(r) == Downcase(Filter(s, IsCamelPart));
    forall i | 0 <= i < |r| ensures IsCamelPart(r[i]) {
      assert Downcase(r)[i] == ToLower(r[i]);
      assert IsCamelPart(Filter(s, IsCamelPart)[i]);
      assert Downcase(Filter(s, IsCamelPart))[i] == ToLower(Filter(s, IsCamelPart)[i]);
    }
  }

  /** Two parts around one separator: the first lower-cased, the second capitalized. */
  lemma CamelCaseTwoParts(a: string, c: char, b: string)
    requires |a| > 0 && All(a, IsCamelPart) && IsCamelSeparator(c)
    requires |b| > 0 && All(b, IsCamelPart)
    ensures ToCamelCase(a + [c] + b) == Ok(Downcase(a) + Capitalize(b))
  {
    var s := a + [c] + b;
    SpanLengthAt(s, IsCamelPart, |a|);
    assert s[..|a|] == a && s[|a| + 1..] == b;
    SpanLengthWhole(b, IsCamelPart);
    assert Pieces(b, IsCamelPart) == [b];
    var ps := Pieces(s, IsCamelPart);
    assert ps == [a, b];
    assert ps[|ps| - 1] != [];
    assert SplitOnSeparators(s) == ps && ps[1..] == [b];
    assert CapitalizeAll([b]) == Capitalize(b) + CapitalizeAll([]) == Capitalize(b) + [];
    assert Capitalize(b) + [] == Capitalize(b);
  }

  /** A leading separator leaves an empty first part, so the word after it is capitalized. */
  lemma CamelCaseLeadingSeparator(c: char, b: string)
    requires IsCamelSeparator(c) && |b| > 0 && All(b, IsCamelPart)
    ensures ToCamelCase([c] + b) == Ok(Capitalize(b))
  {
    var s := [c] + b;
    assert s[1..] == b;
    SpanLengthWhole(b, IsCamelPart);
    assert Pieces(b, IsCamelPart) == [b];
    var ps := Pieces(s, IsCamelPart);
    assert ps == [[], b];
    assert ps[|ps| - 1] != [];
    assert SplitOnSeparators(s) == ps && ps[1..] == [b];
    assert Downcase([]) == [];
    assert CapitalizeAll([b]) == Capitalize(b) + CapitalizeAll([]) == Capitalize(b) + [];
    assert Capitalize(b) + [] == Capitalize(b) == [] + Capitalize(b);
  }

  /**
   * Two lower-case words around a separator: the second word's first letter
   * becomes a capital ("hello_world" to "helloWorld").
   */
  lemma CamelCaseLowerWords(a: string, c: char, b: string)
    requires |a| > 0 && All(a, IsLower) && IsCamelSeparator(c)
    requires |b| > 0 && All(b, IsLower)
    ensures ToCamelCase(a + [c] + b) == Ok(a + [ToUpper(b[0])] + b[1..])
  {
    CamelCaseTwoParts(a, c, b);
    DowncaseNoUpper(a);
    DowncaseNoUpper(b[1..]);
    AppendAssoc(a, [ToUpper(b[0])], b[1..]);
  }

  lemma CamelCaseLeadingExample(s: string)
    requires s == "_a"
    ensures ToCamelCase(s) == Ok("A")
  {
    assert s == [s[0]] + s[1..];
    CamelCaseLeadingSeparator(s[0], s[1..]);
    assert Capitalize(s[1..]) == "A";
  }

  lemma CamelCaseFailureExamples(s: string)
    requires s == "" || s == "__" || s == " - "
    ensures ToCamelCase(s).Failure?
  {
    CamelCaseFailsIff(s);
  }

  // ---------------------------------------------------------------------------
  // Extraction, word count, truncation

  /** String#extract_numbers: the maximal runs of digits, left to right. */
  function ExtractNumbers(s: string): (r: seq<string>)
    ensures forall i :: 0 <= i < |r| ==> Plus(r[i], IsDigit)
  {
    Runs(s, IsDigit)
  }

  /** The extracted runs, concatenated, are keep_numbers. */
  lemma ExtractNumbersFlatten(s: string)
    ensures Flatten(ExtractNumbers(s)) == KeepNumbers(s)
  {
    RunsFlatten(s, IsDigit);
  }

  /** A non-digit separates runs: extraction distributes over it. */
  lemma ExtractNumbersSplit(a: string, c: char, b: string)
    requires !IsDigit(c)
    ensures ExtractNumbers(a + [c] + b) == ExtractNumbers(a) + ExtractNumbers(b)
  {
    RunsSeparated(a, c, b, IsDigit);
  }

  /**
   * Non-digits in front are skipped and a run of digits ended by a non-digit
   * (or by the end) is the first number.
   */
  lemma ExtractNumbersLead(x: string, d: string, rest: string)
    requires forall i :: 0 <= i < |x| ==> !IsDigit(x[i])
    requires Plus(d, IsDigit) && (rest == [] || !IsDigit(rest[0]))
    ensures ExtractNumbers(x + d + rest) == [d] + ExtractNumbers(rest)
  {
    AppendAssoc(x, d, rest);
    RunsSkip(x, d + rest, IsDigit);
    RunsLead(d, rest, IsDigit);
  }

  lemma ExtractNumbersExample(x: string, d: string, y: string, e: string)
    requires x == "abc" && d == "123" && y == "def" && e == "45"
    ensures ExtractNumbers(x + d + y + e) == ["123", "45"]
  {
    ExtractNumbersLead(y, e, []);
    assert y + e + [] == y + e;
    AppendAssoc(x + d, y, e);
    ExtractNumbersLead(x, d, y + e);
    assert ExtractNumbers([]) == [];
  }


  /** String#word_count: the number of maximal runs of non-whitespace (`split.size`). */
  function WordCount(s: string): (n: nat)
    ensures n <= |s|
  {
    RunsFlatten(s, IsNonSpace);
    RunsCount(Runs(s, IsNonSpace));
    |Runs(s, IsNonSpace)|
  }

  /** Non-empty runs: no more runs than characters in them. */
  lemma {:induction false} RunsCount(rs: seq<string>)
    requires forall i :: 0 <= i < |rs| ==> |rs[i]| > 0
    ensures |rs| <= |Flatten(rs)|
    decreases |rs|
  {
    if rs != [] {
      RunsCount(rs[1..]);
    }
  }

  /** No words exactly when the string is all whitespace. */
  lemma WordCountZeroIff(s: string)
    ensures WordCount(s) == 0 <==> All(s, IsSpace)
  {
    var rs := Runs(s, IsNonSpace);
    RunsFlatten(s, IsNonSpace);
    FlattenEmpty(rs);
    FilterDropsAll(s, IsNonSpace);
    assert All(s, IsSpace) <==> All(s, x => !IsNonSpace(x));
    if rs != [] {
      assert |rs[0]| > 0;
    }
  }

  /** Whitespace separates words: the counts add up. */
  lemma WordCountSplit(a: string, c: char, b: string)
    requires IsSpace(c)
    ensures WordCount(a + [c] + b) == WordCount(a) + WordCount(b)
  {
    RunsSeparated(a, c, b, IsNonSpace);
  }

  /** NUL counts as blank but not as whitespace between words. */
  lemma NulIsBlankButAWord()
    ensures IsBlank([Nul]) && WordCount([Nul]) == 1
  {
    BlankIff([Nul]);
    RunsOfRun([Nul], IsNonSpace);
  }

  /** `self[0...m]` for a string longer than m: a negative m counts from the end. */
  function PrefixBefore(s: string, m: int): (r: string)
    requires m < |s|
    ensures |r| <= |s| && r == s[..|r|]
    ensures m >= 0 ==> |r| == m
    ensures m < 0 ==> |r| == if |s| + m > 0 then |s| + m else 0
  {
    if m >= 0 then s[..m] else if |s| + m > 0 then s[..|s| + m] else []
  }

  /** String#truncate(length, ellipsis). */
  function Truncate(s: string, length: int, ellipsis: string): string {
    if |s| <= length then s else PrefixBefore(s, length - |ellipsis|) + ellipsis
  }

  const DefaultLength: int := 30
  const DefaultEllipsis: string := "..."

  /** String#truncate with its default arguments. */
  function TruncateDefault(s: string): string {
    Truncate(s, DefaultLength, DefaultEllipsis)
  }

  /**
   * A string within the limit comes back unchanged; a longer one becomes a
   * prefix of itself followed by the ellipsis, exactly `length` characters
   * long when the ellipsis fits in the limit.
   */
  lemma TruncateShape(s: string, length: int, ellipsis: string)
    ensures |s| <= length ==> Truncate(s, length, ellipsis) == s
    ensures |s| > length ==>
      var r := Truncate(s, length, ellipsis);
      |r| >= |ellipsis| && r[|r| - |ellipsis|..] == ellipsis && r[..|r| - |ellipsis|] == s[..|r| - |ellipsis|]
    ensures |s| > length >= |ellipsis| ==>
      Truncate(s, length, ellipsis) == s[..length - |ellipsis|] + ellipsis
      && |Truncate(s, length, ellipsis)| == length
  {
    if |s| > length {
      var p := PrefixBefore(s, length - |ellipsis|);
      var r := p + ellipsis;
      assert r[|r| - |ellipsis|..] == ellipsis && r[..|r| - |ellipsis|] == p;
    }
  }

  /** With the defaults, a long string is cut to 27 characters plus "...". */
  lemma TruncateDefaultLength(s: string)
    ensures |s| > 30 ==> |TruncateDefault(s)| == 30 && TruncateDefault(s) == s[..27] + "..."
    ensures |s| <= 30 ==> TruncateDefault(s) == s
  {
    TruncateShape(s, 30, "...");
  }

  /**
   * A limit shorter than the ellipsis makes `length - ellipsis.length`
   * negative, so the prefix is counted from the end and the result can be
   * longer than the input.
   */
  lemma TruncateOvershoot()
    ensures Truncate("hello world", 2, "...") == "hello worl..."
    ensures |Truncate("hello world", 2, "...")| > |"hello world"|
  {
  }
}
