/**
 * SQLite's built-in `LIKE` operator, as `searchMessages` uses it
 * (`column LIKE '%' || :query || '%'`, no ESCAPE clause):
 * `%` matches any run of characters, `_` matches exactly one character,
 * and every other character matches itself up to ASCII case.
 */
module SqlLike {

  /** SQLite folds the case of ASCII letters only; every other character compares exactly. */
  function Fold(c: char): (r: char)
    ensures !('A' <= r <= 'Z')
    ensures r != c ==> 'A' <= c <= 'Z' && r as int == c as int + 32
  {
    if 'A' <= c <= 'Z' then (c as int + 32) as char else c
  }

  predicate IsWildcard(c: char) {
    c == '%' || c == '_'
  }

  predicate HasNoWildcard(q: string) {
    forall k :: 0 <= k < |q| ==> !IsWildcard(q[k])
  }

  /**
   * `s LIKE p`. A pattern without wildcards matches exactly the strings equal to it up to ASCII
   * case, and the pattern `%` matches every string.
   */
  predicate Like(s: string, p: string): (r: bool)
    ensures HasNoWildcard(p) ==> (r <==> |s| == |p| && MatchesAt(s, p, 0))
    ensures p == "%" ==> r
    decreases |s| + |p|
  {
    if p == [] then s == []
    else if p[0] == '%' then Like(s, p[1..]) || (s != [] && Like(s[1..], p))
    else
      var r := s != [] && (p[0] == '_' || Fold(s[0]) == Fold(p[0])) && Like(s[1..], p[1..]);
      assert HasNoWildcard(p) && s != [] ==>
        (MatchesAt(s, p, 0) <==> Fold(s[0]) == Fold(p[0]) && MatchesAt(s[1..], p[1..], 0)) by {
        if HasNoWildcard(p) && s != [] && Fold(s[0]) == Fold(p[0]) && MatchesAt(s[1..], p[1..], 0) {
          forall k | 0 <= k < |p| ensures Fold(s[k]) == Fold(p[k]) {
            if k > 0 {
              assert s[1..][k - 1] == s[k] && p[1..][k - 1] == p[k];
            }
          }
        }
      }
      r
  }

  /** The pattern `'%' || q || '%'` that `searchMessages` builds from its argument. */
  function Pattern(q: string): string {
    "%" + q + "%"
  }

  /** `q` occurs in `s` at position `i`, ignoring ASCII case. */
  predicate MatchesAt(s: string, q: string, i: int) {
    0 <= i && i + |q| <= |s| && forall k :: 0 <= k < |q| ==> Fold(s[i + k]) == Fold(q[k])
  }

  /** `q` occurs somewhere in `s`, ignoring ASCII case: the reference meaning of a substring search. */
  ghost predicate ContainsFolded(s: string, q: string) {
    exists i :: MatchesAt(s, q, i)
  }

  /** A lone `%` matches every string. */
  lemma {:induction false} PercentMatchesAll(s: string)
    ensures Like(s, "%")
  {
    if s != [] {
      PercentMatchesAll(s[1..]);
    }
  }

  /** A wildcard-free prefix of the pattern must match the same-length prefix of the subject, up to case. */
  lemma {:induction false} LiteralPrefix(s: string, q: string, rest: string)
    requires HasNoWildcard(q)
    ensures Like(s, q + rest) <==> |q| <= |s| && MatchesAt(s, q, 0) && Like(s[|q|..], rest)
    decreases |q|
  {
    if q == [] {
      assert q + rest == rest;
      assert s[0..] == s;
    } else {
      assert (q + rest)[0] == q[0];
      assert (q + rest)[1..] == q[1..] + rest;
      if s != [] {
        LiteralPrefix(s[1..], q[1..], rest);
        if |q| <= |s| {
          assert s[1..][|q| - 1..] == s[|q|..];
        }
        assert MatchesAt(s, q, 0) <==> Fold(s[0]) == Fold(q[0]) && MatchesAt(s[1..], q[1..], 0) by {
          if Fold(s[0]) == Fold(q[0]) && MatchesAt(s[1..], q[1..], 0) {
            forall k | 0 <= k < |q| ensures Fold(s[k]) == Fold(q[k]) {
              if k > 0 {
                assert s[1..][k - 1] == s[k] && q[1..][k - 1] == q[k];
              }
            }
          }
        }
      }
    }
  }

  /** A leading `%` lets the rest of the pattern match any suffix of the subject. */
  lemma {:induction false} PercentPrefix(s: string, p: string)
    ensures Like(s, "%" + p) <==> exists i :: 0 <= i <= |s| && Like(s[i..], p)
    decreases |s|
  {
    assert ("%" + p)[0] == '%';
    assert ("%" + p)[1..] == p;
    assert s[0..] == s;
    if s != [] {
      PercentPrefix(s[1..], p);
      if Like(s, "%" + p) && !Like(s, p) {
        var i :| 0 <= i <= |s[1..]| && Like(s[1..][i..], p);
        assert s[1..][i..] == s[i + 1..];
      }
      if exists i :: 0 <= i <= |s| && Like(s[i..], p) {
        var i :| 0 <= i <= |s| && Like(s[i..], p);
        if i > 0 {
          assert s[1..][i - 1..] == s[i..];
        }
      }
    }
  }

  /**
   * For a query without wildcards, `s LIKE '%' || q || '%'` holds exactly when `q`
   * occurs in `s` up to ASCII case: the search is a case-insensitive substring test.
   */
  lemma PatternIsSubstringTest(s: string, q: string)
    requires HasNoWildcard(q)
    ensures Like(s, Pattern(q)) <==> ContainsFolded(s, q)
  {
    assert Pattern(q) == "%" + (q + "%");
    PercentPrefix(s, q + "%");
    forall i | 0 <= i <= |s|
      ensures Like(s[i..], q + "%") <==> MatchesAt(s, q, i)
    {
      LiteralPrefix(s[i..], q, "%");
      if |q| <= |s[i..]| {
        PercentMatchesAll(s[i..][|q|..]);
        assert MatchesAt(s[i..], q, 0) <==> MatchesAt(s, q, i) by {
          forall k | 0 <= k < |q| ensures s[i..][k] == s[i + k] { }
        }
      }
    }
    if ContainsFolded(s, q) {
      var i :| MatchesAt(s, q, i);
      assert Like(s[i..], q + "%");
    }
  }

  /** The empty query gives the pattern `'%%'`, which every string matches. */
  lemma EmptyPatternMatchesAll(s: string)
    ensures Like(s, Pattern(""))
  {
    assert Pattern("") == "%" + "%";
    PercentPrefix(s, "%");
    PercentMatchesAll(s);
    assert s[0..] == s;
  }
}
