/** The question search of `POST /questions` with a `search` key: the term is
    lower-cased and matched, ignoring case, against the question text.

    Two matchers live here. `AsWrittenMatch` is what the handler sends to the
    store: the pattern `'%' + term + '%'` under SQL `ILIKE`, in which `%`, `_` and
    the escape character `\` inside the term keep their pattern meaning.
    `MatchesTerm` is the plain case-insensitive substring test the handler is
    meant to perform; the model of the handler uses it, and
    `SearchAgreesWithoutWildcards` shows the two agree on every term that
    holds none of those three characters. */
module Search {

  /** Case folding, over the ASCII letters. */
  function Lower(c: char): char
  {
    if 'A' <= c <= 'Z' then (c as int - 'A' as int + 'a' as int) as char else c
  }

  function LowerStr(s: string): string
  {
    seq(|s|, i requires 0 <= i < |s| => Lower(s[i]))
  }

  /** Python's `str.lower()` applied to the search term. */
  function SearchKey(term: string): string
  {
    LowerStr(term)
  }

  predicate IsPrefix(t: string, s: string)
  {
    |t| <= |s| && s[..|t|] == t
  }

  /** `t` occurs somewhere in `s` (the empty string occurs everywhere). */
  predicate Contains(s: string, t: string)
    decreases |s|
  {
    IsPrefix(t, s) || (|s| > 0 && Contains(s[1..], t))
  }

  /** `t` occurs in `s` starting at index `k`. */
  predicate OccursAt(s: string, t: string, k: int)
  {
    0 <= k && k + |t| <= |s| && s[k..k + |t|] == t
  }

  /** `Contains` means: `t` occurs in `s` at some index. */
  lemma {:induction false} ContainsAt(s: string, t: string)
    ensures Contains(s, t) <==> exists k :: OccursAt(s, t, k)
  {
    if IsPrefix(t, s) {
      assert OccursAt(s, t, 0);
    } else if |s| > 0 {
      ContainsAt(s[1..], t);
      if Contains(s[1..], t) {
        var k :| OccursAt(s[1..], t, k);
        assert s[k + 1..k + 1 + |t|] == s[1..][k..k + |t|];
        assert OccursAt(s, t, k + 1);
      } else {
        forall k ensures !OccursAt(s, t, k) {
          if k > 0 && OccursAt(s, t, k) {
            assert k - 1 + |t| <= |s[1..]|;
            assert s[1..][k - 1..k - 1 + |t|] == s[k..k + |t|];
            assert OccursAt(s[1..], t, k - 1);
          }
        }
      }
    }
  }

  /** The search as intended: the lower-cased key occurs in the lower-cased
      question text. */
  predicate MatchesTerm(question: string, key: string)
    ensures MatchesTerm(question, key) <==> exists k :: OccursAt(LowerStr(question), LowerStr(key), k)
  {
    ContainsAt(LowerStr(question), LowerStr(key));
    Contains(LowerStr(question), LowerStr(key))
  }

  /** SQL `LIKE` with the default escape character: `%` matches any run of
      characters, `_` any single character, and `\` makes the character after it
      literal. */
  predicate Like(p: string, s: string)
    decreases |p| + |s|
  {
    if |p| == 0 then |s| == 0
    else if p[0] == '%' then Like(p[1..], s) || (|s| > 0 && Like(p, s[1..]))
    else if p[0] == '_' then |s| > 0 && Like(p[1..], s[1..])
    else if p[0] == '\\' && |p| > 1 then |s| > 0 && s[0] == p[1] && Like(p[2..], s[1..])
    else |s| > 0 && s[0] == p[0] && Like(p[1..], s[1..])
  }

  /** SQL `ILIKE`: `LIKE` with both sides case-folded. */
  predicate ILike(p: string, s: string)
  {
    Like(LowerStr(p), LowerStr(s))
  }

  /** The filter the handler sends to the store: the question text `ILIKE` the
      pattern made of `%`, the lower-cased term and `%`. The empty term makes
      the pattern `%%`, which selects every question. */
  predicate AsWrittenMatch(question: string, term: string)
    ensures SearchKey(term) == [] ==> AsWrittenMatch(question, term)
  {
    assert SearchKey(term) == [] ==> "%" + SearchKey(term) + "%" == "%%";
    DoublePercentMatchesAll(question);
    ILike("%" + SearchKey(term) + "%", question)
  }

  predicate NoWildcards(t: string)
  {
    forall i :: 0 <= i < |t| ==> t[i] != '%' && t[i] != '_' && t[i] != '\\'
  }

  /** A trailing `%` matches whatever is left. */
  lemma {:induction false} PercentMatchesAnything(s: string)
    ensures Like("%", s)
  {
    if |s| > 0 {
      PercentMatchesAnything(s[1..]);
    }
  }

  /** The pattern `%%`, which the empty search term produces, matches every
      string under `ILIKE`. */
  lemma DoublePercentMatchesAll(s: string)
    ensures ILike("%%", s)
  {
    assert LowerStr("%%") == "%%";
    assert ("%%")[1..] == "%";
    PercentMatchesAnything(LowerStr(s));
  }

  /** `t%` with a wildcard-free `t` matches exactly the strings starting with `t`. */
  lemma {:induction false} LikeLiteralPrefix(t: string, s: string)
    requires NoWildcards(t)
    ensures Like(t + "%", s) <==> IsPrefix(t, s)
  {
    if |t| == 0 {
      assert t + "%" == "%";
      PercentMatchesAnything(s);
    } else {
      assert (t + "%")[1..] == t[1..] + "%";
      if |s| > 0 {
        LikeLiteralPrefix(t[1..], s[1..]);
        assert IsPrefix(t, s) <==> s[0] == t[0] && IsPrefix(t[1..], s[1..]) by {
          if |t| <= |s| {
            assert s[..|t|] == [s[0]] + s[1..][..|t| - 1];
            assert t == [t[0]] + t[1..];
          }
        }
      }
    }
  }

  /** `%t%` with a wildcard-free `t` matches exactly the strings containing `t`. */
  lemma {:induction false} LikeSubstring(t: string, s: string)
    requires NoWildcards(t)
    ensures Like("%" + t + "%", s) <==> Contains(s, t)
  {
    var p := "%" + t + "%";
    assert p[1..] == t + "%";
    LikeLiteralPrefix(t, s);
    if |s| > 0 {
      LikeSubstring(t, s[1..]);
    }
  }

  /** On a term free of `%`, `_` and `\`, the filter as written and the intended
      substring search select the same questions. */
  lemma SearchAgreesWithoutWildcards(question: string, term: string)
    requires NoWildcards(term)
    ensures AsWrittenMatch(question, term) <==> MatchesTerm(question, SearchKey(term))
  {
    var key := SearchKey(term);
    assert LowerStr("%" + key + "%") == "%" + LowerStr(key) + "%";
    LikeSubstring(LowerStr(key), LowerStr(question));
  }

  /** The search term `%` selects every question, whatever its text. */
  lemma PercentTermMatchesAll(question: string)
    ensures AsWrittenMatch(question, "%")
  {
    assert SearchKey("%") == "%";
    assert "%" + SearchKey("%") + "%" == "%%%";
    assert LowerStr("%%%") == "%%%";
    var s := LowerStr(question);
    assert ("%%%")[1..] == "%%";
    assert ("%%")[1..] == "%";
    PercentMatchesAnything(s);
    assert Like("%%", s);
    assert Like("%%%", s);
  }

  /** The search term `_` selects the question "who" although "who" does not
      contain the character `_`. */
  lemma UnderscoreTermMatchesWho()
    ensures AsWrittenMatch("who", "_")
    ensures !MatchesTerm("who", SearchKey("_"))
  {
    assert SearchKey("_") == "_";
    assert "%" + SearchKey("_") + "%" == "%_%";
    assert LowerStr("%_%") == "%_%";
    assert LowerStr("who") == "who";
    assert ("%_%")[1..] == "_%";
    assert ("_%")[1..] == "%";
    PercentMatchesAnything("ho");
    assert ("who")[1..] == "ho";
    assert Like("_%", "who");
    assert Like("%_%", "who");
    forall k ensures !OccursAt("who", "_", k) {
      if 0 <= k < 3 { assert "who"[k..k + 1] == ["who"[k]]; }
    }
  }
}
