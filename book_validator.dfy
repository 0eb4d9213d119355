/**
  The rules of BookValidator. The ISBN rule is the regular expression

      ^(?=(?:[^0-9]*[0-9]){10}(?:(?:[^0-9]*[0-9]){3})?$)[\d-]+$

  Its language is written out piece by piece as ghost predicates (DigitGroup,
  DigitGroups, EndAnchor, LookaheadMatches, BodyMatches) and proved equal to
  IsValidIsbn, a direct test on the characters and the number of digits.
*/
module BookValidator {
  import opened Models

  // ---------------------------------------------------------------------------
  // Characters

  /** `[0-9]` */
  predicate IsDigit(c: char) {
    '0' <= c <= '9'
  }

  /** `[\d-]`, with `\d` read as the ASCII digits. */
  predicate IsIsbnChar(c: char) {
    IsDigit(c) || c == '-'
  }

  /** Every character of `s` is in `[\d-]`. */
  predicate AllIsbnChars(s: string) {
    s == [] || (IsIsbnChar(s[0]) && AllIsbnChars(s[1..]))
  }

  lemma {:induction false} AllIsbnCharsAt(s: string)
    ensures AllIsbnChars(s) <==> forall i :: 0 <= i < |s| ==> IsIsbnChar(s[i])
  {
    if s != [] {
      AllIsbnCharsAt(s[1..]);
      assert forall i :: 1 <= i < |s| ==> s[i] == s[1..][i - 1];
    }
  }

  /** The number of ASCII digits in `s`. */
  function DigitCount(s: string): (n: nat)
    ensures n <= |s|
  {
    if s == [] then 0 else (if IsDigit(s[0]) then 1 else 0) + DigitCount(s[1..])
  }

  /** A string has no digit exactly when its digit count is zero. */
  lemma {:induction false} NoDigitsCount(s: string)
    ensures DigitCount(s) == 0 <==> forall i :: 0 <= i < |s| ==> !IsDigit(s[i])
  {
    if s != [] {
      NoDigitsCount(s[1..]);
      assert forall i :: 1 <= i < |s| ==> s[i] == s[1..][i - 1];
    }
  }

  lemma {:induction false} DigitCountAppend(a: string, b: string)
    ensures DigitCount(a + b) == DigitCount(a) + DigitCount(b)
  {
    if a == [] {
      assert a + b == b;
    } else {
      assert (a + b)[1..] == a[1..] + b;
      DigitCountAppend(a[1..], b);
    }
  }

  /** The position of the first digit of `s`. */
  function FirstDigit(s: string): (i: nat)
    requires DigitCount(s) > 0
    ensures i < |s| && IsDigit(s[i])
    ensures forall j :: 0 <= j < i ==> !IsDigit(s[j])
  {
    if IsDigit(s[0]) then 0 else 1 + FirstDigit(s[1..])
  }

  predicate EndsInDigit(t: string) {
    |t| > 0 && IsDigit(t[|t| - 1])
  }

  // ---------------------------------------------------------------------------
  // The language of the ISBN pattern

  /** `(?:[^0-9]*[0-9])` matches the whole of `t`: non-digits, then one digit. */
  ghost predicate DigitGroup(t: string) {
    EndsInDigit(t) && forall i :: 0 <= i < |t| - 1 ==> !IsDigit(t[i])
  }

  /** `(?:[^0-9]*[0-9]){n}` matches the whole of `t`. */
  ghost predicate DigitGroups(t: string, n: nat)
    decreases |t|
  {
    if n == 0 then t == []
    else exists k :: 0 < k <= |t| && DigitGroup(t[..k]) && DigitGroups(t[k..], n - 1)
  }

  /** `$` holds at position `j`: the end of the input, or just before a final line feed. */
  predicate EndAnchor(s: string, j: nat) {
    j == |s| || (j + 1 == |s| && s[j] == '\n')
  }

  /** The pattern counts ten digits, then optionally three more. */
  const ShortDigits: nat := 10
  const ExtraDigits: nat := 3

  /**
    The look-ahead's groups match `s[..k]` (ten digits' worth) and `s[k..j]`
    (three more, or nothing), and `$` holds at `j`.
  */
  ghost predicate LookaheadAt(s: string, k: int, j: int) {
    && 0 <= k <= j <= |s|
    && DigitGroups(s[..k], ShortDigits)
    && (j == k || DigitGroups(s[k..j], ExtraDigits))
    && EndAnchor(s, j)
  }

  /** The look-ahead `(?=(?:[^0-9]*[0-9]){10}(?:(?:[^0-9]*[0-9]){3})?$)` succeeds at position 0. */
  ghost predicate LookaheadMatches(s: string) {
    exists k, j :: LookaheadAt(s, k, j)
  }

  /** `[\d-]+` matches `s[..j]`, which is not empty, and `$` holds at `j`. */
  ghost predicate BodyAt(s: string, j: int) {
    0 < j <= |s| && EndAnchor(s, j) && forall i :: 0 <= i < j ==> IsIsbnChar(s[i])
  }

  /** `[\d-]+$` matches from position 0. */
  ghost predicate BodyMatches(s: string) {
    exists j :: BodyAt(s, j)
  }

  /** The whole anchored pattern matches `s`. */
  ghost predicate IsbnPatternMatches(s: string) {
    LookaheadMatches(s) && BodyMatches(s)
  }

  // ---------------------------------------------------------------------------
  // The ISBN rule in plain terms

  /** What `$` lets the pattern see: the input without one final line feed. */
  function Subject(s: string): string {
    if |s| > 0 && s[|s| - 1] == '\n' then s[..|s| - 1] else s
  }

  /** `$` holds at the end of Subject(s), and at no other position before the end of `s`. */
  lemma SubjectEnds(s: string)
    ensures var t := Subject(s); EndAnchor(s, |t|) && t == s[..|t|]
    ensures forall j: nat :: EndAnchor(s, j) && j < |s| ==> j == |Subject(s)|
  {
  }

  /**
    The ISBN rule on the text the pattern sees: non-empty, only digits and
    hyphens, exactly 10 or exactly 13 digits, and a digit last. No check digit
    is computed.
  */
  predicate IsbnShape(t: string) {
    && |t| > 0
    && AllIsbnChars(t)
    && (DigitCount(t) == 10 || DigitCount(t) == 13)
    && IsDigit(t[|t| - 1])
  }

  /** The ISBN rule of the validator. */
  predicate IsValidIsbn(isbn: string) {
    IsbnShape(Subject(isbn))
  }

  lemma DigitGroupCount(t: string)
    requires DigitGroup(t)
    ensures DigitCount(t) == 1
  {
    var m := |t| - 1;
    assert t == t[..m] + [t[m]];
    DigitCountAppend(t[..m], [t[m]]);
  }

  /** Each match of `{n}` groups has n digits and is empty or ends in a digit. */
  lemma {:induction false} DigitGroupsSound(t: string, n: nat)
    requires DigitGroups(t, n)
    ensures DigitCount(t) == n && (t == [] || EndsInDigit(t))
    decreases n
  {
    if n > 0 {
      var k :| 0 < k <= |t| && DigitGroup(t[..k]) && DigitGroups(t[k..], n - 1);
      var u := t[k..];
      DigitGroupsSound(u, n - 1);
      DigitGroupCount(t[..k]);
      assert t == t[..k] + u;
      DigitCountAppend(t[..k], u);
      if u != [] {
        assert u[|u| - 1] == t[|t| - 1];
      }
    }
  }

  /** Each string with n digits that is empty or ends in a digit matches `{n}` groups. */
  lemma {:induction false} DigitGroupsComplete(t: string, n: nat)
    requires DigitCount(t) == n && (t == [] || EndsInDigit(t))
    ensures DigitGroups(t, n)
    decreases n
  {
    if n > 0 {
      var k := FirstDigit(t) + 1;
      var u := t[k..];
      assert t == t[..k] + u;
      assert DigitGroup(t[..k]);
      DigitGroupCount(t[..k]);
      DigitCountAppend(t[..k], u);
      if u != [] {
        assert u[|u| - 1] == t[|t| - 1];
      }
      DigitGroupsComplete(u, n - 1);
    } else {
      NoDigitsCount(t);
    }
  }

  /** `(?:[^0-9]*[0-9]){n}` matches exactly the strings with n digits that are empty or end in a digit. */
  lemma DigitGroupsCharacterized(t: string, n: nat)
    ensures DigitGroups(t, n) <==> DigitCount(t) == n && (t == [] || EndsInDigit(t))
  {
    if DigitGroups(t, n) {
      DigitGroupsSound(t, n);
    }
    if DigitCount(t) == n && (t == [] || EndsInDigit(t)) {
      DigitGroupsComplete(t, n);
    }
  }

  /** `t[..k]` matches `{m}` groups and `t[k..]` matches `{n}` groups. */
  ghost predicate SplitsAt(t: string, k: int, m: nat, n: nat) {
    0 <= k <= |t| && DigitGroups(t[..k], m) && DigitGroups(t[k..], n)
  }

  /** `t[..k]` holds exactly m digits and, unless empty, ends in one. */
  ghost predicate DigitPrefixAt(t: string, k: int, m: nat) {
    0 <= k <= |t| && DigitCount(t[..k]) == m && (k == 0 || IsDigit(t[k - 1]))
  }

  /** Every count up to DigitCount(t) is reached by a prefix ending in a digit. */
  lemma {:induction false} DigitPrefixExists(t: string, m: nat)
    requires m <= DigitCount(t)
    ensures exists k :: DigitPrefixAt(t, k, m)
    decreases |t|
  {
    if m == 0 {
      assert t[..0] == [];
      assert DigitPrefixAt(t, 0, m);
    } else {
      assert t == [t[0]] + t[1..];
      if m == 1 && IsDigit(t[0]) {
        assert t[..1] == [t[0]];
        assert DigitPrefixAt(t, 1, m);
      } else {
        var m' := if IsDigit(t[0]) then m - 1 else m;
        DigitPrefixExists(t[1..], m');
        var k' :| DigitPrefixAt(t[1..], k', m');
        assert k' > 0;
        var k := k' + 1;
        assert t[..k] == [t[0]] + t[1..][..k'];
        DigitCountAppend([t[0]], t[1..][..k']);
        assert DigitPrefixAt(t, k, m);
      }
    }
  }

  /** A match of `{m + n}` groups splits into a match of `{m}` followed by a match of `{n}`. */
  lemma DigitGroupsSplit(t: string, m: nat, n: nat)
    requires DigitGroups(t, m + n)
    ensures exists k :: SplitsAt(t, k, m, n)
  {
    DigitGroupsSound(t, m + n);
    DigitPrefixExists(t, m);
    var k :| DigitPrefixAt(t, k, m);
    var a, b := t[..k], t[k..];
    assert t == a + b;
    DigitCountAppend(a, b);
    if k > 0 {
      assert a[k - 1] == t[k - 1];
    }
    if b != [] {
      assert b[|b| - 1] == t[|t| - 1];
    }
    DigitGroupsComplete(a, m);
    DigitGroupsComplete(b, n);
    assert SplitsAt(t, k, m, n);
  }

  /** A match of `{m}` followed by a non-empty match of `{n}` has m + n digits and ends in a digit. */
  lemma GroupsThenGroups(a: string, b: string, m: nat, n: nat)
    requires DigitGroups(a, m) && DigitGroups(b, n) && n > 0
    ensures DigitCount(a + b) == m + n && EndsInDigit(a + b)
  {
    DigitGroupsSound(a, m);
    DigitGroupsSound(b, n);
    DigitCountAppend(a, b);
    assert (a + b)[|a + b| - 1] == b[|b| - 1];
  }

  /** The look-ahead's groups match `s[..j]`: 10 or 13 digits, a digit last. */
  lemma LookaheadDigits(s: string, k: int, j: int)
    requires LookaheadAt(s, k, j)
    ensures DigitCount(s[..j]) == 10 || DigitCount(s[..j]) == 13
    ensures EndsInDigit(s[..j])
  {
    DigitGroupsSound(s[..k], ShortDigits);
    if j != k {
      assert s[..j] == s[..k] + s[k..j];
      GroupsThenGroups(s[..k], s[k..j], ShortDigits, ExtraDigits);
    } else {
      assert s[..j] == s[..k];
    }
  }

  /** A prefix ending in a digit at which `$` holds is Subject(s). */
  lemma DigitAtAnchorIsSubject(s: string, j: int)
    requires 0 <= j <= |s| && EndAnchor(s, j) && EndsInDigit(s[..j])
    ensures s[..j] == Subject(s)
  {
    SubjectEnds(s);
    if |s| > 0 && s[|s| - 1] == '\n' {
      assert s[..|s|][|s| - 1] == '\n';
    }
  }

  /** A match of `[\d-]+$` covers Subject(s). */
  lemma BodyCoversSubject(s: string, j: int)
    requires BodyAt(s, j)
    ensures j == |Subject(s)|
  {
    SubjectEnds(s);
    if |s| > 0 && s[|s| - 1] == '\n' {
      assert !IsIsbnChar(s[|s| - 1]);
    }
  }

  /** Whatever the pattern matches passes IsValidIsbn. */
  lemma PatternImpliesValid(s: string)
    requires IsbnPatternMatches(s)
    ensures IsValidIsbn(s)
  {
    var k, j :| LookaheadAt(s, k, j);
    LookaheadDigits(s, k, j);
    DigitAtAnchorIsSubject(s, j);
    var j' :| BodyAt(s, j');
    BodyCoversSubject(s, j');
    SubjectEnds(s);
    AllIsbnCharsAt(Subject(s));
  }

  /** `t[..k]` matches the ten groups and `t[k..]` is empty or matches the three more. */
  ghost predicate IsbnGroupsAt(t: string, k: int) {
    0 <= k <= |t| && DigitGroups(t[..k], ShortDigits) && (k == |t| || DigitGroups(t[k..], ExtraDigits))
  }

  /** A string with 10 or 13 digits that ends in a digit is matched by the look-ahead's groups. */
  lemma IsbnGroupsExist(t: string)
    requires DigitCount(t) == 10 || DigitCount(t) == 13
    requires EndsInDigit(t)
    ensures exists k :: IsbnGroupsAt(t, k)
  {
    DigitGroupsComplete(t, DigitCount(t));
    if DigitCount(t) == ShortDigits {
      assert t[..|t|] == t;
      assert IsbnGroupsAt(t, |t|);
    } else {
      DigitGroupsSplit(t, ShortDigits, ExtraDigits);
      var k :| SplitsAt(t, k, ShortDigits, ExtraDigits);
      assert IsbnGroupsAt(t, k);
    }
  }

  /** Groups found in Subject(s) are a match of the look-ahead on `s`. */
  lemma LookaheadFromSubject(s: string, k: int)
    requires IsbnGroupsAt(Subject(s), k)
    ensures LookaheadAt(s, k, |Subject(s)|)
  {
    var t := Subject(s);
    SubjectEnds(s);
    assert s[..k] == t[..k];
    assert s[k..|t|] == t[k..];
  }

  /** Whatever passes IsValidIsbn the pattern matches. */
  lemma ValidImpliesPattern(s: string)
    requires IsValidIsbn(s)
    ensures IsbnPatternMatches(s)
  {
    var t := Subject(s);
    SubjectEnds(s);
    AllIsbnCharsAt(t);
    assert BodyAt(s, |t|);
    IsbnGroupsExist(t);
    var k :| IsbnGroupsAt(t, k);
    LookaheadFromSubject(s, k);
  }

  /** The regular expression on the ISBN field accepts exactly what IsValidIsbn accepts. */
  lemma IsbnPatternIffValid(s: string)
    ensures IsbnPatternMatches(s) <==> IsValidIsbn(s)
  {
    if IsbnPatternMatches(s) {
      PatternImpliesValid(s);
    }
    if IsValidIsbn(s) {
      ValidImpliesPattern(s);
    }
  }

  // ---------------------------------------------------------------------------
  // Consequences of the ISBN rule

  predicate AllDigits(s: string) {
    forall i :: 0 <= i < |s| ==> IsDigit(s[i])
  }

  lemma {:induction false} AllDigitsCount(s: string)
    requires AllDigits(s)
    ensures DigitCount(s) == |s| && AllIsbnChars(s)
  {
    if s != [] {
      assert AllDigits(s[1..]) by {
        assert forall i :: 0 <= i < |s| - 1 ==> s[1..][i] == s[i + 1];
      }
      AllDigitsCount(s[1..]);
    }
  }

  /** Joining two parts with a hyphen adds their digits and keeps the character set. */
  lemma HyphenJoin(a: string, b: string)
    ensures DigitCount(a + "-" + b) == DigitCount(a) + DigitCount(b)
    ensures AllIsbnChars(a + "-" + b) <==> AllIsbnChars(a) && AllIsbnChars(b)
    ensures b != [] ==> (a + "-" + b)[|a + "-" + b| - 1] == b[|b| - 1]
  {
    DigitCountAppend(a, "-");
    DigitCountAppend(a + "-", b);
    AllIsbnCharsAt(a);
    AllIsbnCharsAt(b);
    var j := a + "-" + b;
    AllIsbnCharsAt(j);
    assert forall i :: 0 <= i < |a| ==> j[i] == a[i];
    assert j[|a|] == '-';
    assert forall i :: 0 <= i < |b| ==> j[|a| + 1 + i] == b[i];
  }

  /** A string whose last character is a digit is matched as a whole (no final line feed to drop). */
  lemma SubjectOfDigitLast(s: string)
    requires EndsInDigit(s)
    ensures Subject(s) == s
  {
  }

  /**
    Four hyphen-separated groups of digits holding ten digits in all (the
    printed form of an ISBN-10) are accepted, whatever the check digit.
  */
  lemma HyphenatedIsbn10Accepted(g1: string, g2: string, g3: string, g4: string)
    requires AllDigits(g1) && AllDigits(g2) && AllDigits(g3) && AllDigits(g4) && g4 != []
    requires |g1| + |g2| + |g3| + |g4| == 10
    ensures IsValidIsbn(g1 + "-" + g2 + "-" + g3 + "-" + g4)
  {
    AllDigitsCount(g1);
    AllDigitsCount(g2);
    AllDigitsCount(g3);
    AllDigitsCount(g4);
    HyphenJoin(g1, g2);
    HyphenJoin(g1 + "-" + g2, g3);
    HyphenJoin(g1 + "-" + g2 + "-" + g3, g4);
    SubjectOfDigitLast(g1 + "-" + g2 + "-" + g3 + "-" + g4);
  }

  /**
    Five hyphen-separated groups holding thirteen digits (the printed form of
    an ISBN-13) are accepted, whatever the check digit.
  */
  lemma HyphenatedIsbn13Accepted(g0: string, g1: string, g2: string, g3: string, g4: string)
    requires AllDigits(g0) && AllDigits(g1) && AllDigits(g2) && AllDigits(g3) && AllDigits(g4) && g4 != []
    requires |g0| + |g1| + |g2| + |g3| + |g4| == 13
    ensures IsValidIsbn(g0 + "-" + g1 + "-" + g2 + "-" + g3 + "-" + g4)
  {
    AllDigitsCount(g0);
    AllDigitsCount(g1);
    AllDigitsCount(g2);
    AllDigitsCount(g3);
    AllDigitsCount(g4);
    HyphenJoin(g0, g1);
    HyphenJoin(g0 + "-" + g1, g2);
    HyphenJoin(g0 + "-" + g1 + "-" + g2, g3);
    HyphenJoin(g0 + "-" + g1 + "-" + g2 + "-" + g3, g4);
    SubjectOfDigitLast(g0 + "-" + g1 + "-" + g2 + "-" + g3 + "-" + g4);
  }

  /** The ISBN-10 "0-306-40615-2" is accepted. */
  lemma Isbn10Example()
    ensures IsValidIsbn("0-306-40615-2")
  {
    var s := "0-306-40615-2";
    assert s[..1] == "0" && s[2..5] == "306" && s[6..11] == "40615" && s[12..] == "2";
    assert s == s[..1] + "-" + s[2..5] + "-" + s[6..11] + "-" + s[12..];
    HyphenatedIsbn10Accepted("0", "306", "40615", "2");
  }

  /** "0-306-40615-3", whose check digit is wrong, is accepted as well. */
  lemma WrongCheckDigitExample()
    ensures IsValidIsbn("0-306-40615-3")
  {
    var s := "0-306-40615-3";
    assert s[..1] == "0" && s[2..5] == "306" && s[6..11] == "40615" && s[12..] == "3";
    assert s == s[..1] + "-" + s[2..5] + "-" + s[6..11] + "-" + s[12..];
    HyphenatedIsbn10Accepted("0", "306", "40615", "3");
  }

  /** The ISBN-13 "978-0-306-40615-7" is accepted. */
  lemma Isbn13Example()
    ensures IsValidIsbn("978-0-306-40615-7")
  {
    var s := "978-0-306-40615-7";
    assert s[..3] == "978" && s[4..5] == "0" && s[6..9] == "306" && s[10..15] == "40615" && s[16..] == "7";
    assert s == s[..3] + "-" + s[4..5] + "-" + s[6..9] + "-" + s[10..15] + "-" + s[16..];
    HyphenatedIsbn13Accepted("978", "0", "306", "40615", "7");
  }

  /** Too few digits is rejected: five digits. */
  lemma DigitsOnlyExample()
    ensures !IsValidIsbn("12345")
  {
    AllDigitsCount("12345");
  }

  /** A hyphen or any other non-digit last is rejected. */
  lemma NonDigitLastRejected(s: string, c: char)
    requires !IsDigit(c) && c != '\n'
    ensures !IsValidIsbn(s + [c])
  {
  }

  /** A string whose digit count is not 10 or 13 is rejected, 11 and 12 included. */
  lemma WrongDigitCountRejected(s: string)
    requires DigitCount(Subject(s)) != 10 && DigitCount(Subject(s)) != 13
    ensures !IsValidIsbn(s)
  {
  }

  /** A letter such as `X` anywhere in what the pattern sees is rejected. */
  lemma LetterRejected(s: string, i: nat)
    requires i < |Subject(s)| && ('A' <= Subject(s)[i] <= 'Z' || 'a' <= Subject(s)[i] <= 'z')
    ensures !IsValidIsbn(s)
  {
    AllIsbnCharsAt(Subject(s));
  }

  // ---------------------------------------------------------------------------
  // The record rules

  /** FluentValidation's ValidationFailure: the property it names and the message. */
  datatype Failure = Failure(propertyName: string, errorMessage: string)

  const IsbnFailure := Failure("Isbn", "Invalid ISBN")
  const TitleFailure := Failure("Title", "'Title' must not be empty.")
  const AuthorFailure := Failure("Author", "'Author' must not be empty.")
  const ShortDescriptionFailure := Failure("ShortDescription", "'Short Description' must not be empty.")
  const PageCountFailure := Failure("PageCount", "'Page Count' must be greater than '0'.")

  /** .NET's char.IsWhiteSpace. */
  predicate IsWhiteSpace(c: char) {
    || '\U{0009}' <= c <= '\U{000D}'
    || c == '\U{0020}' || c == '\U{0085}' || c == '\U{00A0}' || c == '\U{1680}'
    || '\U{2000}' <= c <= '\U{200A}'
    || c == '\U{2028}' || c == '\U{2029}' || c == '\U{202F}' || c == '\U{205F}' || c == '\U{3000}'
  }

  /** What NotEmpty rejects for a string: empty or whitespace only. */
  predicate IsBlank(s: string) {
    forall i :: 0 <= i < |s| ==> IsWhiteSpace(s[i])
  }

  /** Every rule of the validator passes; ReleaseDate takes no part. */
  predicate IsValid(b: Book) {
    && IsValidIsbn(b.isbn)
    && !IsBlank(b.title)
    && !IsBlank(b.author)
    && !IsBlank(b.shortDescription)
    && b.pageCount > 0
  }

  function Check(passes: bool, failure: Failure): seq<Failure> {
    if passes then [] else [failure]
  }

  /** The failures of the validator's six rules, in declaration order. */
  function Validate(b: Book): (errors: seq<Failure>)
    ensures errors == [] <==> IsValid(b)
    ensures |errors| <= 6
  {
    Check(IsValidIsbn(b.isbn), IsbnFailure)
    + Check(!IsBlank(b.title), TitleFailure)
    + Check(!IsBlank(b.author), AuthorFailure)
    + Check(!IsBlank(b.shortDescription), ShortDescriptionFailure)
    + Check(b.pageCount > 0, PageCountFailure)
    + Check(!IsBlank(b.author), AuthorFailure)
  }

  /** Each rule that fails is reported, under its field, and no other failure is. */
  lemma ValidateReportsFailingRules(b: Book)
    ensures IsbnFailure in Validate(b) <==> !IsValidIsbn(b.isbn)
    ensures TitleFailure in Validate(b) <==> IsBlank(b.title)
    ensures AuthorFailure in Validate(b) <==> IsBlank(b.author)
    ensures ShortDescriptionFailure in Validate(b) <==> IsBlank(b.shortDescription)
    ensures PageCountFailure in Validate(b) <==> b.pageCount <= 0
  {
  }

  /** The ISBN rule is declared once: a bad Isbn is reported exactly once. */
  lemma IsbnReportedOnce(b: Book)
    ensures multiset(Validate(b))[IsbnFailure] == if IsValidIsbn(b.isbn) then 0 else 1
  {
  }

  /** The Title rule is declared once: a blank Title is reported exactly once. */
  lemma TitleReportedOnce(b: Book)
    ensures multiset(Validate(b))[TitleFailure] == if IsBlank(b.title) then 1 else 0
  {
  }

  /** The ShortDescription rule is declared once: a blank one is reported exactly once. */
  lemma ShortDescriptionReportedOnce(b: Book)
    ensures multiset(Validate(b))[ShortDescriptionFailure] == if IsBlank(b.shortDescription) then 1 else 0
  {
  }

  /** The PageCount rule is declared once: a PageCount of 0 or less is reported exactly once. */
  lemma PageCountReportedOnce(b: Book)
    ensures multiset(Validate(b))[PageCountFailure] == if b.pageCount <= 0 then 1 else 0
  {
  }

  /** Only the five rule failures occur, and an ISBN failure is reported first. */
  lemma ValidateReportsOnlyRuleFailures(b: Book)
    ensures !IsValidIsbn(b.isbn) ==> Validate(b)[0] == IsbnFailure
    ensures forall f :: f in Validate(b) ==>
      f in {IsbnFailure, TitleFailure, AuthorFailure, ShortDescriptionFailure, PageCountFailure}
  {
  }

  /** The Author rule is declared twice, so a blank Author is reported twice. */
  lemma AuthorReportedTwice(b: Book)
    ensures multiset(Validate(b))[AuthorFailure] == if IsBlank(b.author) then 2 else 0
  {
  }

  /** Validation reads no field but the five it has rules for. */
  lemma ReleaseDateIgnored(b: Book, d: Date)
    ensures Validate(b.(releaseDate := d)) == Validate(b)
  {
  }

  lemma PageCountBoundary(b: Book)
    ensures (PageCountFailure in Validate(b)) == (b.pageCount <= 0)
    ensures PageCountFailure !in Validate(b.(pageCount := 1))
    ensures PageCountFailure in Validate(b.(pageCount := 0))
  {
  }
}
