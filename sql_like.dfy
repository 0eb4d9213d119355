/**
  SQLite's `LIKE` operator as the title search uses it:
  `Title LIKE '%' || @SearchTerm || '%'`. Without an ESCAPE clause, `%` in the
  pattern matches any run of characters, `_` any one character, and every
  other character matches itself with ASCII letters folded to lower case.
  SQLite reads each operand only up to its first U+0000; strings holding that
  character are outside this model, which treats it as an ordinary character.
*/
module SqlLike {

  /** SQLite's default LIKE folds the ASCII letters only. */
  function ToLowerAscii(c: char): (d: char)
    ensures 'A' <= c <= 'Z' ==> 'a' <= d <= 'z'
    ensures !('A' <= c <= 'Z') ==> d == c
  {
    if 'A' <= c <= 'Z' then (c as int + 32) as char else c
  }

  predicate CharLike(c: char, p: char) {
    ToLowerAscii(c) == ToLowerAscii(p)
  }

  /** `s LIKE p` */
  predicate Like(s: string, p: string)
    decreases |s| + |p|
  {
    if p == [] then s == []
    else if p[0] == '%' then Like(s, p[1..]) || (s != [] && Like(s[1..], p))
    else s != [] && (p[0] == '_' || CharLike(s[0], p[0])) && Like(s[1..], p[1..])
  }

  /** The pattern `'%' || term || '%'` the search builds. */
  function ContainsPattern(term: string): (p: string)
    ensures |p| == |term| + 2 && p[0] == '%' && p[|p| - 1] == '%'
    ensures p[1..|p| - 1] == term
  {
    "%" + term + "%"
  }

  /** The term holds no wildcard. */
  predicate IsPlain(q: string) {
    forall k :: 0 <= k < |q| ==> q[k] != '%' && q[k] != '_'
  }

  /** `a` and `b` agree character by character up to ASCII case. */
  predicate SameIgnoringCase(a: string, b: string) {
    |a| == |b| && forall k :: 0 <= k < |a| ==> CharLike(a[k], b[k])
  }

  /** `q` occurs in `s` exactly, starting at index `i`. */
  predicate OccursAt(s: string, q: string, i: int) {
    0 <= i <= |s| - |q| && s[i..i + |q|] == q
  }

  /** `q` occurs in `s` up to ASCII case, starting at index `i`. */
  predicate OccursIgnoringCaseAt(s: string, q: string, i: int) {
    0 <= i <= |s| - |q| && SameIgnoringCase(s[i..i + |q|], q)
  }

  /** `q` occurs in `s` exactly. */
  ghost predicate Contains(s: string, q: string) {
    exists i :: OccursAt(s, q, i)
  }

  /** `q` occurs in `s` up to ASCII case. */
  ghost predicate ContainsIgnoringCase(s: string, q: string) {
    exists i :: OccursIgnoringCaseAt(s, q, i)
  }

  /** A lone `%` matches every string. */
  lemma {:induction false} PercentMatchesAll(s: string)
    ensures Like(s, "%")
    decreases |s|
  {
    if s != [] {
      PercentMatchesAll(s[1..]);
    }
  }

  /** Every string that starts with `q` matches `q` followed by `%`, wildcards in `q` included. */
  lemma {:induction false} PrefixMatches(q: string, r: string)
    ensures Like(q + r, q + "%")
    decreases |q|
  {
    if q == [] {
      assert q + r == r && q + "%" == "%";
      PercentMatchesAll(r);
    } else {
      var s, p := q + r, q + "%";
      assert s[1..] == q[1..] + r;
      assert p[1..] == q[1..] + "%";
      PrefixMatches(q[1..], r);
      if q[0] == '%' {
        assert Like(s[1..], p);
      }
    }
  }

  /** A leading `%` lets the rest of the pattern match any suffix of `s`. */
  lemma {:induction false} LeadingPercent(s: string, p: string)
    ensures Like(s, "%" + p) <==> exists i :: 0 <= i <= |s| && Like(s[i..], p)
    decreases |s|
  {
    var pp := "%" + p;
    assert pp[1..] == p;
    assert s[0..] == s;
    if s != [] {
      LeadingPercent(s[1..], p);
      if Like(s, pp) && !Like(s, p) {
        var i :| 0 <= i <= |s[1..]| && Like(s[1..][i..], p);
        assert s[1..][i..] == s[i + 1..];
      }
      if exists i :: 0 <= i <= |s| && Like(s[i..], p) {
        var i :| 0 <= i <= |s| && Like(s[i..], p);
        if i > 0 {
          assert s[1..][i - 1..] == s[i..];
        }
      }
    }
  }

  /** For a plain term, `q` followed by `%` matches exactly the strings starting with `q` up to case. */
  lemma {:induction false} PlainPrefix(s: string, q: string)
    requires IsPlain(q)
    ensures Like(s, q + "%") <==> |q| <= |s| && SameIgnoringCase(s[..|q|], q)
    decreases |q|
  {
    if q == [] {
      assert q + "%" == "%";
      PercentMatchesAll(s);
    } else {
      var p := q + "%";
      assert p[0] == q[0] && p[1..] == q[1..] + "%";
      assert IsPlain(q[1..]);
      if s != [] {
        PlainPrefix(s[1..], q[1..]);
        if |q| <= |s| {
          var a, a' := s[..|q|], s[1..][..|q| - 1];
          assert forall k :: 1 <= k < |q| ==> a[k] == a'[k - 1] && q[k] == q[1..][k - 1];
          assert SameIgnoringCase(a, q) <==> CharLike(s[0], q[0]) && SameIgnoringCase(a', q[1..]);
        }
      }
    }
  }

  /** Every title that contains the term exactly is matched by the search pattern. */
  lemma ContainsIsMatched(s: string, q: string)
    requires Contains(s, q)
    ensures Like(s, ContainsPattern(q))
  {
    var i :| OccursAt(s, q, i);
    assert s[i..] == q + s[i + |q|..];
    PrefixMatches(q, s[i + |q|..]);
    assert ContainsPattern(q) == "%" + (q + "%");
    LeadingPercent(s, q + "%");
  }

  /** For a term without wildcards the search pattern matches exactly the titles containing it up to ASCII case. */
  lemma PlainTermMatchesIgnoringCase(s: string, q: string)
    requires IsPlain(q)
    ensures Like(s, ContainsPattern(q)) <==> ContainsIgnoringCase(s, q)
  {
    assert ContainsPattern(q) == "%" + (q + "%");
    LeadingPercent(s, q + "%");
    forall i | 0 <= i <= |s|
      ensures Like(s[i..], q + "%") <==> OccursIgnoringCaseAt(s, q, i)
    {
      PlainPrefix(s[i..], q);
      if i + |q| <= |s| {
        assert s[i..][..|q|] == s[i..i + |q|];
      }
    }
    if ContainsIgnoringCase(s, q) {
      var i :| OccursIgnoringCaseAt(s, q, i);
      assert Like(s[i..], q + "%");
    }
  }

  /** The empty term gives the pattern `%%`, which matches every title. */
  lemma EmptyTermMatchesAll(s: string)
    ensures Like(s, ContainsPattern(""))
  {
    assert ContainsPattern("") == "%" + "%";
    PercentMatchesAll(s);
    LeadingPercent(s, "%");
    assert s[0..] == s;
  }

  /** The term is not escaped: a term of `%` gives the pattern `%%%`, which matches every title. */
  lemma PercentTermMatchesAll(s: string)
    ensures Like(s, ContainsPattern("%"))
  {
    assert ContainsPattern("%") == "%" + ("%" + "%");
    EmptyTermMatchesAll(s);
    assert ContainsPattern("") == "%" + "%";
    LeadingPercent(s, "%" + "%");
    assert s[0..] == s;
  }

  /** An upper-case term finds a mixed-case title. */
  lemma CaseFoldingExample()
    ensures Like("The Hobbit", ContainsPattern("HOBBIT"))
  {
    var s, q := "The Hobbit", "HOBBIT";
    assert s[4..10] == "Hobbit";
    assert SameIgnoringCase("Hobbit", q);
    assert OccursIgnoringCaseAt(s, q, 4);
    PlainTermMatchesIgnoringCase(s, q);
  }
}
