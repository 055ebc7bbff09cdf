/** Character-level text operations the core relies on: JavaScript's
    whitespace class, ASCII case folding, and Postgres `LIKE`/`ILIKE`
    pattern matching, with plain substring containment as its reference. */
module Text {

  /** JavaScript's `\s` (the same set `trim` strips): the ECMAScript
      WhiteSpace and LineTerminator code points. */
  predicate IsWhitespace(c: char)
  {
    || c == ' ' || c == '\t' || c == '\n' || c == '\r'
    || c == '\U{000B}' || c == '\U{000C}' || c == '\U{00A0}' || c == '\U{1680}'
    || ('\U{2000}' <= c <= '\U{200A}') || c == '\U{2028}' || c == '\U{2029}'
    || c == '\U{202F}' || c == '\U{205F}' || c == '\U{3000}' || c == '\U{FEFF}'
  }

  /** Lower-case of one character; only ASCII letters change. */
  function LowerChar(c: char): char
  {
    if 'A' <= c <= 'Z' then (c as int + 32) as char else c
  }

  /** ASCII lower-casing of a string, position by position. */
  function Lower(s: string): (r: string)
    ensures |r| == |s|
    ensures forall i :: 0 <= i < |s| ==> r[i] == LowerChar(s[i])
  {
    seq(|s|, i requires 0 <= i < |s| => LowerChar(s[i]))
  }

  /** `t` occurs in `s` starting at position `i`. */
  predicate OccursAt(s: string, t: string, i: int)
  {
    0 <= i && i + |t| <= |s| && s[i..i + |t|] == t
  }

  /** `t` occurs in `s` as a contiguous block. */
  predicate Contains(s: string, t: string)
  {
    exists i :: 0 <= i <= |s| && OccursAt(s, t, i)
  }

  /** `t` holds none of the characters `LIKE` treats specially. */
  predicate LiteralPattern(t: string)
  {
    forall i :: 0 <= i < |t| ==> t[i] != '%' && t[i] != '_' && t[i] != '\\'
  }

  /** Postgres `s LIKE p`: `%` matches any run of characters, `_` any one
      character, and `\` makes the next character literal. A lone trailing
      `\` (which Postgres rejects) is read as a literal backslash; the
      patterns the core builds always end in `%`, so it cannot occur. */
  predicate Like(s: string, p: string)
    decreases |s| + |p|
  {
    if |p| == 0 then |s| == 0
    else if p[0] == '%' then Like(s, p[1..]) || (|s| > 0 && Like(s[1..], p))
    else if p[0] == '_' then |s| > 0 && Like(s[1..], p[1..])
    else if p[0] == '\\' && |p| >= 2 then |s| > 0 && s[0] == p[1] && Like(s[1..], p[2..])
    else |s| > 0 && s[0] == p[0] && Like(s[1..], p[1..])
  }

  /** Postgres `s ILIKE p`: `LIKE` after case folding both sides. */
  predicate ILike(s: string, p: string)
  {
    Like(Lower(s), Lower(p))
  }

  /** The pattern `%term%` the search binds to its parameter. */
  function Surround(term: string): string
  {
    "%" + term + "%"
  }

  /** A lone `%` matches every string. */
  lemma {:induction false} PercentMatchesAll(s: string)
    ensures Like(s, "%")
    decreases |s|
  {
    if |s| > 0 {
      PercentMatchesAll(s[1..]);
    }
  }

  /** `t%` for a literal `t` matches exactly the strings that start with `t`. */
  lemma {:induction false} LiteralPrefix(s: string, t: string)
    requires LiteralPattern(t)
    ensures Like(s, t + "%") <==> |t| <= |s| && s[..|t|] == t
    decreases |t|
  {
    if |t| == 0 {
      assert t + "%" == "%";
      PercentMatchesAll(s);
    } else if |s| > 0 {
      var p := t + "%";
      assert p[0] == t[0] && p[1..] == t[1..] + "%";
      LiteralPrefix(s[1..], t[1..]) by {
        assert LiteralPattern(t[1..]) by {
          forall i | 0 <= i < |t[1..]| ensures t[1..][i] != '%' && t[1..][i] != '_' && t[1..][i] != '\\' {
            assert t[1..][i] == t[i + 1];
          }
        }
      }
      if |s| > 0 && s[0] == t[0] && |t| <= |s| {
        assert s[..|t|] == [s[0]] + s[1..][..|t| - 1];
        assert t == [t[0]] + t[1..];
      }
    }
  }

  /** A leading `%` lets the rest of the pattern match any suffix. */
  lemma {:induction false} LeadingPercent(s: string, q: string)
    ensures Like(s, "%" + q) <==> exists i :: 0 <= i <= |s| && Like(s[i..], q)
    decreases |s|
  {
    var p := "%" + q;
    assert p[0] == '%' && p[1..] == q;
    if |s| == 0 {
      assert s[0..] == s;
    } else {
      LeadingPercent(s[1..], q);
      if Like(s, p) {
        if !Like(s, q) {
          var i :| 0 <= i <= |s[1..]| && Like(s[1..][i..], q);
          assert s[1..][i..] == s[i + 1..];
        } else {
          assert s[0..] == s;
        }
      } else {
        forall i | 0 <= i <= |s|
          ensures !Like(s[i..], q)
        {
          if i > 0 {
            assert s[i..] == s[1..][i - 1..];
          } else {
            assert s[0..] == s;
          }
        }
      }
    }
  }

  /** For a term without wildcard or escape characters, matching `%term%` is
      plain substring containment. */
  lemma SurroundIsContains(s: string, t: string)
    requires LiteralPattern(t)
    ensures Like(s, Surround(t)) <==> Contains(s, t)
  {
    assert Surround(t) == "%" + (t + "%");
    LeadingPercent(s, t + "%");
    if Like(s, Surround(t)) {
      var i :| 0 <= i <= |s| && Like(s[i..], t + "%");
      LiteralPrefix(s[i..], t);
      assert s[i..][..|t|] == s[i..i + |t|];
      assert OccursAt(s, t, i);
    }
    if Contains(s, t) {
      var i :| 0 <= i <= |s| && OccursAt(s, t, i);
      LiteralPrefix(s[i..], t);
      assert s[i..][..|t|] == s[i..i + |t|];
    }
  }

  /** Case folding keeps a term free of wildcard and escape characters. */
  lemma LowerKeepsLiteral(t: string)
    requires LiteralPattern(t)
    ensures LiteralPattern(Lower(t))
  {
  }

  /** Case folding maps `%term%` to `%lower(term)%`. */
  lemma LowerSurround(t: string)
    ensures Lower(Surround(t)) == Surround(Lower(t))
  {
  }

  /** `ILIKE '%term%'` for a literal term: case-insensitive containment. */
  lemma ILikeSurroundIsContains(s: string, t: string)
    requires LiteralPattern(t)
    ensures ILike(s, Surround(t)) <==> Contains(Lower(s), Lower(t))
  {
    LowerSurround(t);
    LowerKeepsLiteral(t);
    SurroundIsContains(Lower(s), Lower(t));
  }
}
