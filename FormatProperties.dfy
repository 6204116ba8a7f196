/**
 * What the word, identifier, email and URL grammars of NoRegex::PatternMethods
 * accept, restated position by position or as a composition of parts, and
 * proved equivalent to the grammar-shaped definitions.
 */
module FormatProperties {
  import opened Chars
  import opened Seqs
  import opened Patterns

  /** `[p]+` is contained in `[q]+` when the class p is contained in the class q. */
  lemma PlusMono(s: string, p: char -> bool, q: char -> bool)
    requires forall c :: p(c) ==> q(c)
    ensures Plus(s, p) ==> Plus(s, q)
  {
  }

  /** How the character-class grammars nest. */
  lemma WordGrammarsNest(s: string)
    ensures IsLetters(s) ==> IsAlphanumeric(s)
    ensures IsAlphanumeric(s) ==> IsUsername(s) && HasNoSpecialChars(s)
    ensures IsUsername(s) ==> HasNoSpaces(s)
    ensures IsInteger(s) ==> IsPhoneNumber(s)
  {
    PlusMono(s, IsLetter, IsAlnum);
    PlusMono(s, IsAlnum, IsUsernameChar);
    PlusMono(s, IsAlnum, IsPlainTextChar);
    PlusMono(s, IsUsernameChar, IsNonSpace);
    PlusMono(s, IsDigit, IsPhoneChar);
    if |s| > 0 {
      PlusMono(s[1..], IsDigit, IsPhoneChar);
    }
  }

  // ---------------------------------------------------------------------------
  // ZIP code, hex color, UUID

  /** is_zip_code? accepts five digits, or five digits, '-', four digits. */
  lemma ZipCodeIff(s: string)
    ensures IsZipCode(s) <==>
      (|s| == 5 && All(s, IsDigit))
      || (|s| == 10 && s[5] == '-' && forall i :: 0 <= i < 10 && i != 5 ==> IsDigit(s[i]))
  {
    if |s| == 10 {
      if IsZipCode(s) {
        forall i | 0 <= i < 10 && i != 5 ensures IsDigit(s[i]) {
          if i < 5 { assert s[i] == s[..5][i]; } else { assert s[i] == s[6..][i - 6]; }
        }
      }
      if s[5] == '-' && forall i :: 0 <= i < 10 && i != 5 ==> IsDigit(s[i]) {
        assert forall i :: 0 <= i < 5 ==> s[..5][i] == s[i];
        assert forall i :: 0 <= i < 4 ==> s[6..][i] == s[i + 6];
      }
    }
  }

  /** is_hex_color? accepts six hex digits, optionally after a '#', and nothing else. */
  lemma HexColorIff(s: string)
    ensures IsHexColor(s) <==>
      var d := Filter(s, IsHexDigit);
      |d| == 6 && (s == d || s == "#" + d)
  {
    var d := Filter(s, IsHexDigit);
    FilterKeepsAll(s, IsHexDigit);
    if |s| > 0 {
      assert s == [s[0]] + s[1..];
      FilterAppend([s[0]], s[1..], IsHexDigit);
      FilterKeepsAll(s[1..], IsHexDigit);
      if s[0] == '#' {
        assert d == Filter(s[1..], IsHexDigit);
        if s == "#" + d {
          assert s[1..] == d;
        }
      }
    }
  }

  /** The dash positions of the 8-4-4-4-12 layout. */
  predicate UuidDashAt(i: int) {
    i == 8 || i == 13 || i == 18 || i == 23
  }

  /** is_uuid? accepts exactly 36 characters: '-' at 8, 13, 18 and 23, a hex digit everywhere else. */
  lemma UuidIff(s: string)
    ensures IsUuid(s) <==>
      |s| == 36 && forall i :: 0 <= i < 36 ==> if UuidDashAt(i) then s[i] == '-' else IsHexDigit(s[i])
  {
    if |s| == 36 {
      assert forall i :: 0 <= i < 8 ==> s[..8][i] == s[i];
      assert forall i :: 0 <= i < 4 ==> s[9..13][i] == s[9 + i];
      assert forall i :: 0 <= i < 4 ==> s[14..18][i] == s[14 + i];
      assert forall i :: 0 <= i < 4 ==> s[19..23][i] == s[19 + i];
      assert forall i :: 0 <= i < 12 ==> s[24..][i] == s[24 + i];
      if IsUuid(s) {
        forall i | 0 <= i < 36 && !UuidDashAt(i) ensures IsHexDigit(s[i]) {
          if i < 8 { assert s[i] == s[..8][i]; }
          else if i < 13 { assert s[i] == s[9..13][i - 9]; }
          else if i < 18 { assert s[i] == s[14..18][i - 14]; }
          else if i < 23 { assert s[i] == s[19..23][i - 19]; }
          else { assert s[i] == s[24..][i - 24]; }
        }
      }
    }
  }

  // ---------------------------------------------------------------------------
  // Credit card

  /** A digit or a card separator. */
  predicate IsCardChar(c: char) { IsDigit(c) || IsCardSeparator(c) }

  /**
   * n groups: 4n digits in all, between 4n and 5n - 1 characters, and nothing
   * but digits and separators.
   */
  lemma {:induction false} CardGroupsShape(s: string, n: nat)
    requires n >= 1 && IsCardGroups(s, n)
    ensures |Filter(s, IsDigit)| == 4 * n
    ensures 4 * n <= |s| <= 5 * n - 1
    ensures All(s, IsCardChar)
    decreases n
  {
    assert s == s[..4] + s[4..];
    FilterAppend(s[..4], s[4..], IsDigit);
    FilterKeepsAll(s[..4], IsDigit);
    if n == 1 {
      assert s[4..] == [];
    } else if IsCardGroups(s[4..], n - 1) {
      CardGroupsShape(s[4..], n - 1);
      assert forall i :: 4 <= i < |s| ==> s[i] == s[4..][i - 4];
    } else {
      var t := s[5..];
      CardGroupsShape(t, n - 1);
      assert s[4..] == [s[4]] + t;
      FilterAppend([s[4]], t, IsDigit);
      assert forall i :: 5 <= i < |s| ==> s[i] == t[i - 5];
    }
  }

  /** Any 4n digits in a row form n groups. */
  lemma {:induction false} DigitsFormCardGroups(d: string, n: nat)
    requires n >= 1 && |d| == 4 * n && All(d, IsDigit)
    ensures IsCardGroups(d, n)
    decreases n
  {
    if n > 1 {
      assert forall i :: 0 <= i < |d[4..]| ==> d[4..][i] == d[i + 4];
      DigitsFormCardGroups(d[4..], n - 1);
    }
  }

  /**
   * is_credit_card? accepts four groups of four digits with one optional
   * separator (a whitespace character or '-') between groups; the separators
   * need not agree with each other. No checksum is computed.
   */
  lemma CreditCardOfGroups(a: string, b: string, c: string, d: string, x: string, y: string, z: string)
    requires Exactly(a, 4, IsDigit) && Exactly(b, 4, IsDigit) && Exactly(c, 4, IsDigit) && Exactly(d, 4, IsDigit)
    requires |x| <= 1 && |y| <= 1 && |z| <= 1 && All(x, IsCardSeparator) && All(y, IsCardSeparator) && All(z, IsCardSeparator)
    ensures IsCreditCard(a + x + b + y + c + z + d)
  {
    DigitsFormCardGroups(d, 1);
    CardGroupsCons(c, z, d, 1);
    CardGroupsCons(b, y, c + z + d, 2);
    CardGroupsCons(a, x, b + y + (c + z + d), 3);
    GroupsAssoc(a, x, b, y, c, z, d);
  }

  lemma GroupsAssoc(a: string, x: string, b: string, y: string, c: string, z: string, d: string)
    ensures a + x + b + y + c + z + d == a + x + (b + y + (c + z + d))
  {
    AppendAssoc(b + y, c + z, d);
    AppendAssoc(a + x, b + y, c + z + d);
    AppendAssoc(a + x + b + y, c + z, d);
  }

  lemma CardGroupsCons(g: string, x: string, t: string, n: nat)
    requires Exactly(g, 4, IsDigit) && |x| <= 1 && All(x, IsCardSeparator) && IsCardGroups(t, n) && n >= 1
    ensures IsCardGroups(g + x + t, n + 1)
  {
    var s := g + x + t;
    assert s[..4] == g;
    if x == [] {
      assert s[4..] == t;
    } else {
      assert s[4] == x[0];
      assert s[5..] == t;
    }
  }

  /** Splits n >= 2 groups into the first group, the optional separator after it, and the rest. */
  lemma CardGroupsHead(s: string, n: nat) returns (g: string, x: string, t: string)
    requires n >= 2 && IsCardGroups(s, n)
    ensures Exactly(g, 4, IsDigit) && |x| <= 1 && All(x, IsCardSeparator) && IsCardGroups(t, n - 1)
    ensures s == g + x + t
  {
    g := s[..4];
    if IsCardGroups(s[4..], n - 1) {
      x, t := "", s[4..];
    } else {
      x, t := s[4..5], s[5..];
    }
    assert s == g + x + t;
  }

  /** A single group is four digits. */
  lemma LastCardGroup(d: string)
    requires IsCardGroups(d, 1)
    ensures Exactly(d, 4, IsDigit)
  {
    assert d[..4] == d;
  }

  /** Four groups of four digits and the (at most one-character) separators between them. */
  predicate CardPieces(a: string, x: string, b: string, y: string, c: string, z: string, d: string) {
    Exactly(a, 4, IsDigit) && Exactly(b, 4, IsDigit) && Exactly(c, 4, IsDigit) && Exactly(d, 4, IsDigit)
    && |x| <= 1 && |y| <= 1 && |z| <= 1
    && All(x, IsCardSeparator) && All(y, IsCardSeparator) && All(z, IsCardSeparator)
  }

  /**
   * Every accepted card number is four groups of four digits with at most one
   * separator between neighbouring groups, and nothing else.
   */
  lemma CreditCardHasLayout(s: string)
    requires IsCreditCard(s)
    ensures exists a, x, b, y, c, z, d :: CardPieces(a, x, b, y, c, z, d) && s == a + x + b + y + c + z + d
  {
    var a, x, t1 := CardGroupsHead(s, 4);
    var b, y, t2 := CardGroupsHead(t1, 3);
    var c, z, d := CardGroupsHead(t2, 2);
    LastCardGroup(d);
    assert CardPieces(a, x, b, y, c, z, d);
    GroupsAssoc(a, x, b, y, c, z, d);
    assert s == a + x + b + y + c + z + d;
  }

  /** A card number holds sixteen digits, and those digits alone are again a card number. */
  lemma CreditCardDigits(s: string)
    requires IsCreditCard(s)
    ensures |Filter(s, IsDigit)| == 16 && 16 <= |s| <= 19 && All(s, IsCardChar)
    ensures IsCreditCard(Filter(s, IsDigit))
  {
    CardGroupsShape(s, 4);
    DigitsFormCardGroups(Filter(s, IsDigit), 4);
  }

  // ---------------------------------------------------------------------------
  // SSN

  /** Nine digits laid out 3-2-4, with or without each of the two hyphens. */
  function SsnLayout(d: string, first: bool, second: bool): (r: string)
    requires |d| == 9
    ensures |r| == 9 + (if first then 1 else 0) + (if second then 1 else 0)
  {
    d[..3] + (if first then "-" else "") + d[3..5] + (if second then "-" else "") + d[5..]
  }

  /** Every layout of nine digits is accepted, and its digits are the nine digits. */
  lemma SsnLayoutAccepted(d: string, first: bool, second: bool)
    requires Exactly(d, 9, IsDigit)
    ensures IsSsn(SsnLayout(d, first, second))
    ensures Filter(SsnLayout(d, first, second), IsDigit) == d
  {
    var h1: string := if first then "-" else "";
    var h2: string := if second then "-" else "";
    var p, q, r := d[..3], d[3..5], d[5..];
    SsnPieces(d);
    var tail := q + h2 + r;
    SsnTailAccepted(q, h2, r);
    LayoutAssoc(p, h1, q, h2, r);
    SsnHeadAccepted(p, h1, tail);
    DigitsAroundHyphens(p, h1, q, h2, r);
  }

  /** The 3-2-4 pieces of nine digits. */
  lemma SsnPieces(d: string)
    requires Exactly(d, 9, IsDigit)
    ensures Exactly(d[..3], 3, IsDigit) && Exactly(d[3..5], 2, IsDigit) && Exactly(d[5..], 4, IsDigit)
    ensures d == d[..3] + d[3..5] + d[5..]
  {
    SplitThree(d, 3, 5);
    AppendAssoc(d[..3], d[3..5], d[5..]);
  }

  lemma LayoutAssoc(p: string, h1: string, q: string, h2: string, r: string)
    ensures p + h1 + q + h2 + r == p + h1 + (q + h2 + r)
  {
    AppendAssoc(p + h1, q + h2, r);
    AppendAssoc(p + h1, q, h2);
  }

  lemma SsnHeadAccepted(p: string, h: string, t: string)
    requires Exactly(p, 3, IsDigit) && (h == "" || h == "-") && IsSsnTail(t)
    ensures IsSsn(p + h + t)
  {
    var s := p + h + t;
    assert s[..3] == p;
    assert s[3 + |h|..] == t;
  }

  lemma SsnTailAccepted(q: string, h: string, r: string)
    requires Exactly(q, 2, IsDigit) && (h == "" || h == "-") && Exactly(r, 4, IsDigit)
    ensures IsSsnTail(q + h + r)
  {
    var t := q + h + r;
    assert t[..2] == q;
    assert t[2 + |h|..] == r;
  }

  /** Dropping the optional hyphens leaves the digits. */
  lemma DigitsAroundHyphens(p: string, h1: string, q: string, h2: string, r: string)
    requires All(p, IsDigit) && All(q, IsDigit) && All(r, IsDigit)
    requires (h1 == "" || h1 == "-") && (h2 == "" || h2 == "-")
    ensures Filter(p + h1 + q + h2 + r, IsDigit) == p + q + r
  {
    FilterAppend(p + h1 + q + h2, r, IsDigit);
    FilterHyphen(p + h1 + q, h2);
    FilterAppend(p + h1, q, IsDigit);
    FilterHyphen(p, h1);
    FilterKeepsAll(p, IsDigit);
    FilterKeepsAll(q, IsDigit);
    FilterKeepsAll(r, IsDigit);
  }

  lemma FilterHyphen(a: string, h: string)
    requires h == "" || h == "-"
    ensures Filter(a + h, IsDigit) == Filter(a, IsDigit)
  {
    FilterAppend(a, h, IsDigit);
    assert Filter(h, IsDigit) == [];
    assert Filter(a, IsDigit) + [] == Filter(a, IsDigit);
  }

  /** Every accepted SSN is one of those layouts of its own digits. */
  lemma SsnHasLayout(s: string)
    requires IsSsn(s)
    ensures |Filter(s, IsDigit)| == 9
    ensures exists first: bool, second: bool :: s == SsnLayout(Filter(s, IsDigit), first, second)
  {
    var h1, t := SsnHead(s);
    var h2, u := SsnTail(t);
    var p, q := s[..3], t[..2];
    LayoutAssoc(p, h1, q, h2, u);
    DigitsAroundHyphens(p, h1, q, h2, u);
    var d := p + q + u;
    SsnDigitsJoin(p, q, u);
    assert s == SsnLayout(d, h1 == "-", h2 == "-");
  }

  /** The three leading digits, the optional hyphen and the rest. */
  lemma SsnHead(s: string) returns (h: string, t: string)
    requires IsSsn(s)
    ensures (h == "" || h == "-") && IsSsnTail(t) && Exactly(s[..3], 3, IsDigit)
    ensures s == s[..3] + h + t
  {
    if s[3] == '-' {
      h, t := "-", s[4..];
      SplitAround(s, 3);
    } else {
      h, t := "", s[3..];
      assert s == s[..3] + s[3..];
    }
  }

  /** The two digits, the optional hyphen and the four digits of the tail. */
  lemma SsnTail(t: string) returns (h: string, u: string)
    requires IsSsnTail(t)
    ensures (h == "" || h == "-") && Exactly(t[..2], 2, IsDigit) && Exactly(u, 4, IsDigit)
    ensures t == t[..2] + h + u
  {
    if t[2] == '-' {
      h, u := "-", t[3..];
      SplitAround(t, 2);
    } else {
      h, u := "", t[2..];
      assert t == t[..2] + t[2..];
    }
  }

  lemma SsnDigitsJoin(p: string, q: string, u: string)
    requires Exactly(p, 3, IsDigit) && Exactly(q, 2, IsDigit) && Exactly(u, 4, IsDigit)
    ensures var d := p + q + u;
      Exactly(d, 9, IsDigit) && d[..3] == p && d[3..5] == q && d[5..] == u
  {
    var d := p + q + u;
    assert forall i :: 0 <= i < 3 ==> d[i] == p[i];
    assert forall i :: 3 <= i < 5 ==> d[i] == q[i - 3];
    assert forall i :: 5 <= i < 9 ==> d[i] == u[i - 5];
  }

  // ---------------------------------------------------------------------------
  // Email

  /**
   * Domain labels, position by position: non-empty, made of domain characters
   * and dots, no dot at either end and no two dots in a row.
   */
  predicate LabelsShape(x: string) {
    |x| > 0 && x[0] != '.' && x[|x| - 1] != '.'
    && (forall i :: 0 <= i < |x| ==> IsDomainChar(x[i]) || x[i] == '.')
    && (forall i :: 0 < i < |x| ==> !(x[i - 1] == '.' && x[i] == '.'))
  }

  lemma DomainLabelsIff(x: string)
    ensures IsDomainLabels(x) <==> LabelsShape(x)
  {
    if IsDomainLabels(x) {
      DomainLabelsToShape(x);
    }
    if LabelsShape(x) {
      ShapeToDomainLabels(x);
    }
  }

  lemma {:induction false} DomainLabelsToShape(x: string)
    requires IsDomainLabels(x)
    ensures LabelsShape(x)
    decreases |x|
  {
    if !Plus(x, IsDomainChar) {
      var k := FirstLabelEnd(x);
      DomainLabelsToShape(x[k + 1..]);
      ShapeCons(x[..k], x[k + 1..]);
      SplitAround(x, k);
    }
  }

  /** The dot that ends the first label, when there are several. */
  lemma FirstLabelEnd(x: string) returns (k: nat)
    requires IsDomainLabels(x) && !Plus(x, IsDomainChar)
    ensures k < |x| && x[k] == '.' && Plus(x[..k], IsDomainChar) && IsDomainLabels(x[k + 1..])
  {
    k :| 0 <= k < |x| && x[k] == '.' && Plus(x[..k], IsDomainChar) && IsDomainLabels(x[k + 1..]);
  }

  /** A label, a dot and more labels are labels. */
  lemma ShapeCons(l: string, r: string)
    requires Plus(l, IsDomainChar) && LabelsShape(r)
    ensures LabelsShape(l + "." + r)
  {
    var x := l + "." + r;
    var k := |l|;
    assert x[0] == l[0];
    assert x[|x| - 1] == r[|r| - 1];
    assert forall i :: 0 <= i < k ==> x[i] == l[i];
    assert forall i :: k < i < |x| ==> x[i] == r[i - k - 1];
  }

  lemma ShapeWithoutDot(x: string)
    requires LabelsShape(x) && forall j :: 0 <= j < |x| ==> x[j] != '.'
    ensures Plus(x, IsDomainChar)
  {
  }

  lemma ShapeAtFirstDot(x: string, k: nat)
    requires LabelsShape(x) && k < |x| && x[k] == '.' && forall j :: 0 <= j < k ==> x[j] != '.'
    ensures 0 < k < |x| - 1 && Plus(x[..k], IsDomainChar) && LabelsShape(x[k + 1..])
  {
    var l, r := x[..k], x[k + 1..];
    forall i | 0 <= i < k ensures IsDomainChar(l[i]) {
      assert l[i] in l;
    }
    assert r[0] == x[k + 1];
    forall i | 0 < i < |r| ensures !(r[i - 1] == '.' && r[i] == '.') {
      assert r[i - 1] == x[k + i] && r[i] == x[k + 1 + i];
    }
    forall i | 0 <= i < |r| ensures IsDomainChar(r[i]) || r[i] == '.' {
      assert r[i] == x[k + 1 + i];
    }
  }

  lemma {:induction false} ShapeToDomainLabels(x: string)
    requires LabelsShape(x)
    ensures IsDomainLabels(x)
    decreases |x|
  {
    var k := IndexOf(x, '.');
    if k == |x| {
      ShapeWithoutDot(x);
    } else {
      ShapeAtFirstDot(x, k);
      ShapeToDomainLabels(x[k + 1..]);
    }
  }


  /** An email address is a local part, '@', domain labels, '.', and a top-level domain of letters. */
  lemma EmailOfParts(l: string, x: string, t: string)
    requires Plus(l, IsEmailLocalChar) && LabelsShape(x) && Plus(t, IsLetter)
    ensures IsEmail(l + "@" + x + "." + t)
  {
    ShapeToDomainLabels(x);
    var d := x + "." + t;
    assert d[..|x|] == x && d[|x| + 1..] == t;
    assert IsEmailDomain(d);
    var s := l + "@" + d;
    assert s[..|l|] == l && s[|l| + 1..] == d;
    assert s == l + "@" + x + "." + t;
  }

  /** An accepted address contains exactly one '@'. */
  lemma EmailHasOneAt(s: string)
    requires IsEmail(s)
    ensures exists i :: 0 <= i < |s| && s[i] == '@'
    ensures forall i, j :: 0 <= i < |s| && 0 <= j < |s| && s[i] == '@' && s[j] == '@' ==> i == j
  {
    var i :| 0 <= i < |s| && s[i] == '@' && Plus(s[..i], IsEmailLocalChar) && IsEmailDomain(s[i + 1..]);
    var l, d := s[..i], s[i + 1..];
    SplitAround(s, i);
    EmailPartsHaveOneAt(l, d);
  }

  lemma EmailPartsHaveOneAt(l: string, d: string)
    requires Plus(l, IsEmailLocalChar) && IsEmailDomain(d)
    ensures var s := l + "@" + d;
      forall i, j :: 0 <= i < |s| && 0 <= j < |s| && s[i] == '@' && s[j] == '@' ==> i == j
  {
    EmailDomainHasNoAt(d);
    OneAt(l, d);
  }

  lemma EmailDomainHasNoAt(d: string)
    requires IsEmailDomain(d)
    ensures forall k :: 0 <= k < |d| ==> d[k] != '@'
  {
    var j :| 0 <= j < |d| && d[j] == '.' && IsDomainLabels(d[..j]) && Plus(d[j + 1..], IsLetter);
    var x, t := d[..j], d[j + 1..];
    DomainLabelsToShape(x);
    LabelsHaveNoAt(x, t);
    assert d == x + "." + t;
  }

  lemma LabelsHaveNoAt(x: string, t: string)
    requires LabelsShape(x) && Plus(t, IsLetter)
    ensures forall k :: 0 <= k < |x + "." + t| ==> (x + "." + t)[k] != '@'
  {
    var d := x + "." + t;
    forall k | 0 <= k < |d| ensures d[k] != '@' {
      if k < |x| { assert d[k] == x[k]; }
      else if k > |x| { assert d[k] == t[k - |x| - 1]; }
    }
  }

  lemma OneAt(l: string, d: string)
    requires forall k :: 0 <= k < |l| ==> l[k] != '@'
    requires forall k :: 0 <= k < |d| ==> d[k] != '@'
    ensures var s := l + "@" + d;
      forall i, j :: 0 <= i < |s| && 0 <= j < |s| && s[i] == '@' && s[j] == '@' ==> i == j
  {
    var s := l + "@" + d;
    assert forall i :: 0 <= i < |l| ==> s[i] == l[i];
    assert forall i :: |l| < i < |s| ==> s[i] == d[i - |l| - 1];
  }

  // ---------------------------------------------------------------------------
  // URL

  /** The nested star `([\/\w \.-]*)*` accepts exactly the strings of path characters. */
  lemma {:induction false} UrlPathChunksIff(x: string)
    ensures IsUrlPathChunks(x) <==> All(x, IsUrlPathChar)
    decreases |x|
  {
    if x != [] {
      if IsUrlPathChunks(x) {
        var k :| 0 < k <= |x| && All(x[..k], IsUrlPathChar) && IsUrlPathChunks(x[k..]);
        UrlPathChunksIff(x[k..]);
        assert forall i :: 0 <= i < |x| ==> x[i] == if i < k then x[..k][i] else x[k..][i - k];
      }
      if All(x, IsUrlPathChar) {
        assert x[..|x|] == x && x[|x|..] == [];
      }
    }
  }

  /** The optional trailing '/' adds nothing: the path is any string of path characters. */
  lemma UrlPathIff(x: string)
    ensures IsUrlPath(x) <==> All(x, IsUrlPathChar)
  {
    UrlPathChunksIff(x);
    if |x| > 0 {
      var y := x[..|x| - 1];
      UrlPathChunksIff(y);
      assert forall i :: 0 <= i < |y| ==> y[i] == x[i];
    }
  }

  /**
   * A host of host characters, '.', two to six top-level-domain characters
   * and a path is accepted, with or without an http:// or https:// scheme.
   */
  lemma UrlOfParts(h: string, t: string, p: string)
    requires Plus(h, IsUrlHostChar) && 2 <= |t| <= 6 && All(t, IsUrlTldChar) && All(p, IsUrlPathChar)
    ensures var a := h + "." + t + p;
      IsUrl(a) && IsUrl("http://" + a) && IsUrl("https://" + a)
  {
    UrlTldAndPath(t, p);
    var a := h + "." + (t + p);
    assert a[..|h|] == h && a[|h| + 1..] == t + p;
    assert IsUrlAfterScheme(a);
    assert a == h + "." + t + p;
    UrlWithScheme("http://", a);
    UrlWithScheme("https://", a);
  }

  lemma UrlTldAndPath(t: string, p: string)
    requires 2 <= |t| <= 6 && All(t, IsUrlTldChar) && All(p, IsUrlPathChar)
    ensures IsUrlTldAndPath(t + p)
  {
    UrlPathIff(p);
    var u := t + p;
    assert u[..|t|] == t && u[|t|..] == p;
  }

  lemma UrlWithScheme(scheme: string, a: string)
    requires scheme == "http://" || scheme == "https://"
    requires IsUrlAfterScheme(a)
    ensures IsUrl(scheme + a)
  {
    var s := scheme + a;
    assert s[..|scheme|] == scheme && s[|scheme|..] == a;
  }
}
