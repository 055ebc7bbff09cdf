/** `generateSlug`: the URL slug derived from a display name. The name is
    lower-cased and trimmed, every run of whitespace becomes one hyphen,
    every character that is neither a word character nor a hyphen is
    dropped, and every run of hyphens becomes one hyphen. */
module Slug {
  import opened Common
  import opened Text
  import Numbers

  /** A character of the regular-expression class `\w`: an ASCII letter, an
      ASCII digit or the underscore. */
  predicate IsWordChar(c: char)
  {
    ('a' <= c <= 'z') || ('A' <= c <= 'Z') || ('0' <= c <= '9') || c == '_'
  }

  /** A character the hyphen-and-word filter keeps. */
  predicate IsWordOrHyphen(c: char)
  {
    IsWordChar(c) || c == '-'
  }

  /** A character a slug may hold: `[a-z0-9_-]`. */
  predicate IsSlugChar(c: char)
  {
    ('a' <= c <= 'z') || ('0' <= c <= '9') || c == '_' || c == '-'
  }

  /** No two hyphens stand next to each other. */
  predicate NoDoubleHyphen(s: string)
  {
    forall i :: 0 <= i < |s| - 1 ==> !(s[i] == '-' && s[i + 1] == '-')
  }

  /** A string `generateSlug` can produce: slug characters only and no
      doubled hyphen. */
  predicate IsSlug(s: string)
  {
    SlugChars(s) && NoDoubleHyphen(s)
  }

  /** No character of `s` is an ASCII upper-case letter. */
  predicate NoUpper(s: string)
  {
    forall i :: 0 <= i < |s| ==> !('A' <= s[i] <= 'Z')
  }

  /** Every character of `s` is a slug character. */
  predicate SlugChars(s: string)
  {
    forall i :: 0 <= i < |s| ==> IsSlugChar(s[i])
  }

  /** Some character of `s` is not whitespace. */
  predicate HasText(s: string)
  {
    exists i :: 0 <= i < |s| && !IsWhitespace(s[i])
  }

  /** Every character of `s` is whitespace. */
  predicate AllWhitespace(s: string)
  {
    forall i :: 0 <= i < |s| ==> IsWhitespace(s[i])
  }

  /** `s` without its trailing whitespace. */
  function TrimEnd(s: string): (r: string)
    ensures |r| <= |s| && r == s[..|r|]
    ensures |r| > 0 ==> !IsWhitespace(r[|r| - 1])
    ensures forall i :: |r| <= i < |s| ==> IsWhitespace(s[i])
  {
    if |s| > 0 && IsWhitespace(s[|s| - 1]) then TrimEnd(s[..|s| - 1]) else s
  }

  /** `String.prototype.trim`: leading and trailing whitespace removed. */
  function Trim(s: string): (r: string)
    ensures |r| > 0 ==> !IsWhitespace(r[0]) && !IsWhitespace(r[|r| - 1])
    ensures NoUpper(s) ==> NoUpper(r)
  {
    var t := Numbers.TrimStart(s);
    var r := TrimEnd(t);
    InnerNoUpper(s, t, r);
    r
  }

  /** A prefix of a suffix of a string without upper-case letters has none
      either. */
  lemma InnerNoUpper(s: string, t: string, r: string)
    requires |t| <= |s| && t == s[|s| - |t|..]
    requires |r| <= |t| && r == t[..|r|]
    ensures NoUpper(s) ==> NoUpper(r)
  {
    if NoUpper(s) {
      forall i | 0 <= i < |r|
        ensures !('A' <= r[i] <= 'Z')
      {
        assert r[i] == t[i] == s[|s| - |t| + i];
      }
    }
  }

  /** `replace(/\s+/g, '-')`: each maximal run of whitespace becomes one
      hyphen; other characters are kept in order. */
  function Hyphenate(s: string): (r: string)
    ensures forall i :: 0 <= i < |r| ==> !IsWhitespace(r[i])
    ensures NoUpper(s) ==> NoUpper(r)
    decreases |s|
  {
    if |s| == 0 then []
    else if IsWhitespace(s[0]) then
      var rest := Numbers.TrimStart(s[1..]);
      assert forall i :: 0 <= i < |rest| ==> rest[i] == s[|s| - |rest| + i];
      "-" + Hyphenate(rest)
    else
      [s[0]] + Hyphenate(s[1..])
  }

  /** `replace(/[^\w\-]+/g, '')`: every character that is neither a word
      character nor a hyphen is dropped. */
  function StripNonWord(s: string): (r: string)
    ensures forall i :: 0 <= i < |r| ==> IsWordOrHyphen(r[i])
    ensures NoUpper(s) ==> SlugChars(r)
  {
    var r := Filter(s, IsWordOrHyphen);
    assert forall i :: 0 <= i < |r| ==> r[i] in s;
    r
  }

  /** `s` after its leading hyphens. */
  function SkipHyphens(s: string): (r: string)
    ensures |r| <= |s| && r == s[|s| - |r|..]
    ensures |r| > 0 ==> r[0] != '-'
    ensures forall i :: 0 <= i < |s| - |r| ==> s[i] == '-'
  {
    if |s| > 0 && s[0] == '-' then SkipHyphens(s[1..]) else s
  }

  /** `replace(/\-\-+/g, '-')`: every run of two or more hyphens becomes
      one hyphen, which is the same as collapsing every run of hyphens. */
  function CollapseHyphens(s: string): (r: string)
    ensures NoDoubleHyphen(r)
    ensures SlugChars(s) ==> SlugChars(r)
    ensures |r| > 0 <==> |s| > 0
    ensures |r| > 0 ==> (r[0] == '-' <==> s[0] == '-')
    decreases |s|
  {
    if |s| == 0 then []
    else if s[0] == '-' then
      var rest := SkipHyphens(s[1..]);
      var tail := CollapseHyphens(rest);
      assert |tail| > 0 ==> tail[0] != '-';
      var r := "-" + tail;
      assert forall i :: 1 <= i < |r| ==> r[i] == tail[i - 1];
      assert forall i :: 0 <= i < |rest| ==> rest[i] == s[|s| - |rest| + i];
      r
    else
      var tail := CollapseHyphens(s[1..]);
      var r := [s[0]] + tail;
      assert forall i :: 1 <= i < |r| ==> r[i] == tail[i - 1];
      r
  }

  /** `generateSlug(text)`: the four rewriting steps after lower-casing and
      trimming. The result holds only `[a-z0-9_-]` and never two hyphens in
      a row. */
  function GenerateSlug(text: string): (r: string)
    ensures IsSlug(r)
  {
    var lowered := Lower(text);
    LowerHasNoUpper(text);
    var trimmed := Trim(lowered);
    var hyphenated := Hyphenate(trimmed);
    var stripped := StripNonWord(hyphenated);
    CollapseHyphens(stripped)
  }

  /** Lower-casing leaves no upper-case letter. */
  lemma LowerHasNoUpper(s: string)
    ensures NoUpper(Lower(s))
  {
    var r := Lower(s);
    forall i | 0 <= i < |r|
      ensures !('A' <= r[i] <= 'Z')
    {
      assert r[i] == LowerChar(s[i]);
    }
  }

  // Identity on slugs, and idempotence.

  /** Lower-casing leaves a string without upper-case letters alone. */
  lemma LowerSlug(s: string)
    requires IsSlug(s)
    ensures Lower(s) == s
  {
  }

  /** Trimming leaves a string without whitespace alone. */
  lemma TrimSlug(s: string)
    requires IsSlug(s)
    ensures Trim(s) == s
  {
    if |s| > 0 {
      SlugCharNotBlank(s[0]);
      SlugCharNotBlank(s[|s| - 1]);
      assert Numbers.TrimStart(s) == s;
    }
  }

  /** A slug character is not whitespace. */
  lemma SlugCharNotBlank(c: char)
    requires IsSlugChar(c)
    ensures !IsWhitespace(c)
  {
  }

  /** With no whitespace present there is nothing to hyphenate. */
  lemma {:induction false} HyphenateKeeps(s: string)
    requires forall i :: 0 <= i < |s| ==> !IsWhitespace(s[i])
    ensures Hyphenate(s) == s
    decreases |s|
  {
    if |s| > 0 {
      assert !IsWhitespace(s[0]);
      HyphenateKeeps(s[1..]);
    }
  }

  /** With no doubled hyphen present there is nothing to collapse. */
  lemma {:induction false} CollapseKeeps(s: string)
    requires NoDoubleHyphen(s)
    ensures CollapseHyphens(s) == s
    decreases |s|
  {
    if |s| > 0 {
      assert NoDoubleHyphen(s[1..]) by {
        forall i | 0 <= i < |s[1..]| - 1
          ensures !(s[1..][i] == '-' && s[1..][i + 1] == '-')
        {
          assert s[1..][i] == s[i + 1] && s[1..][i + 1] == s[i + 2];
        }
      }
      CollapseKeeps(s[1..]);
      if s[0] == '-' {
        assert |s| == 1 || s[1] != '-';
        assert SkipHyphens(s[1..]) == s[1..];
      }
    }
  }

  /** A slug is its own slug. */
  lemma SlugIsFixed(s: string)
    requires IsSlug(s)
    ensures GenerateSlug(s) == s
  {
    LowerSlug(s);
    TrimSlug(s);
    HyphenateKeeps(s);
    FilterKeepsAll(s, IsWordOrHyphen);
    CollapseKeeps(s);
  }

  /** `generateSlug(generateSlug(x)) == generateSlug(x)`. */
  lemma SlugIsIdempotent(text: string)
    ensures GenerateSlug(GenerateSlug(text)) == GenerateSlug(text)
  {
    SlugIsFixed(GenerateSlug(text));
  }

  // Whitespace at the ends and between words.

  /** Leading whitespace before text is skipped. */
  lemma {:induction false} TrimStartPast(w: string, s: string)
    requires AllWhitespace(w)
    ensures Numbers.TrimStart(w + s) == Numbers.TrimStart(s)
    decreases |w|
  {
    if |w| > 0 {
      assert IsWhitespace((w + s)[0]);
      assert (w + s)[1..] == w[1..] + s;
      TrimStartPast(w[1..], s);
    } else {
      assert w + s == s;
    }
  }

  /** Trailing whitespace after text is skipped. */
  lemma {:induction false} TrimEndPast(s: string, w: string)
    requires AllWhitespace(w)
    ensures TrimEnd(s + w) == TrimEnd(s)
    decreases |w|
  {
    if |w| > 0 {
      var w' := w[..|w| - 1];
      assert IsWhitespace((s + w)[|s + w| - 1]);
      assert (s + w)[..|s + w| - 1] == s + w';
      TrimEndPast(s, w');
    } else {
      assert s + w == s;
    }
  }

  /** Once text is reached, what follows is kept as it is. */
  lemma {:induction false} TrimStartAppend(x: string, y: string)
    requires HasText(x)
    ensures Numbers.TrimStart(x + y) == Numbers.TrimStart(x) + y
    decreases |x|
  {
    if IsWhitespace(x[0]) {
      var i :| 0 <= i < |x| && !IsWhitespace(x[i]);
      assert !IsWhitespace(x[1..][i - 1]);
      assert (x + y)[1..] == x[1..] + y;
      TrimStartAppend(x[1..], y);
    }
  }

  /** Whitespace alone trims to nothing. */
  lemma BlankTrimsAway(s: string)
    requires !HasText(s)
    ensures Numbers.TrimStart(s) == []
  {
  }

  /** Trimming ignores whitespace padding on either side. */
  lemma TrimPadding(w1: string, s: string, w2: string)
    requires AllWhitespace(w1) && AllWhitespace(w2)
    ensures Trim(w1 + s + w2) == Trim(s)
  {
    assert w1 + s + w2 == w1 + (s + w2);
    TrimStartPast(w1, s + w2);
    if HasText(s) {
      TrimStartAppend(s, w2);
      TrimEndPast(Numbers.TrimStart(s), w2);
    } else {
      BlankTrimsAway(s);
      assert !HasText(s + w2) by {
        forall i | 0 <= i < |s + w2|
          ensures IsWhitespace((s + w2)[i])
        {
          if i >= |s| {
            assert (s + w2)[i] == w2[i - |s|];
          }
        }
      }
      BlankTrimsAway(s + w2);
    }
  }

  /** Lower-casing works character by character. */
  lemma LowerAppend(a: string, b: string)
    ensures Lower(a + b) == Lower(a) + Lower(b)
  {
  }

  /** Whitespace is not a letter, so lower-casing leaves it alone. */
  lemma LowerBlank(w: string)
    requires AllWhitespace(w)
    ensures Lower(w) == w
  {
    forall i | 0 <= i < |w|
      ensures LowerChar(w[i]) == w[i]
    {
      assert IsWhitespace(w[i]);
    }
  }

  /** Leading and trailing whitespace is dropped, not turned into hyphens:
      padding a name with whitespace does not change its slug. */
  lemma SlugIgnoresPadding(w1: string, text: string, w2: string)
    requires AllWhitespace(w1) && AllWhitespace(w2)
    ensures GenerateSlug(w1 + text + w2) == GenerateSlug(text)
  {
    LowerAppend(w1 + text, w2);
    LowerAppend(w1, text);
    LowerBlank(w1);
    LowerBlank(w2);
    TrimPadding(w1, Lower(text), w2);
  }

  /** A run of whitespace between two words becomes exactly one hyphen. */
  lemma {:induction false} HyphenateRun(a: string, w: string, b: string)
    requires |w| > 0 && AllWhitespace(w)
    requires |a| == 0 || !IsWhitespace(a[|a| - 1])
    requires |b| == 0 || !IsWhitespace(b[0])
    ensures Hyphenate(a + w + b) == Hyphenate(a) + "-" + Hyphenate(b)
    decreases |a|
  {
    if |a| == 0 {
      assert a + w + b == w + b;
      RunThenWord(w, b);
      assert Hyphenate(a) + "-" + Hyphenate(b) == "-" + Hyphenate(b);
    } else if !IsWhitespace(a[0]) {
      HyphenateRun(a[1..], w, b);
      WordBeforeRun(a, w, b);
    } else {
      var a' := Numbers.TrimStart(a[1..]);
      assert |a'| > 0 && a'[|a'| - 1] == a[|a| - 1] by {
        assert !IsWhitespace(a[1..][|a| - 2]);
      }
      HyphenateRun(a', w, b);
      BlankBeforeRun(a, w, b);
    }
  }

  /** The inductive step of `HyphenateRun` when `a` starts with a word
      character. */
  lemma WordBeforeRun(a: string, w: string, b: string)
    requires |a| > 0 && !IsWhitespace(a[0])
    requires Hyphenate(a[1..] + w + b) == Hyphenate(a[1..]) + "-" + Hyphenate(b)
    ensures Hyphenate(a + w + b) == Hyphenate(a) + "-" + Hyphenate(b)
  {
    KeepFirstOfThree(a, w, b);
    KeepFirst(a, []);
    assert a + [] == a && a[1..] + [] == a[1..];
    Regroup(Hyphenate(a + w + b), [a[0]], Hyphenate(a[1..]), Hyphenate(b));
  }

  /** The inductive step of `HyphenateRun` when `a` starts with
      whitespace. */
  lemma BlankBeforeRun(a: string, w: string, b: string)
    requires |a| > 0 && IsWhitespace(a[0]) && !IsWhitespace(a[|a| - 1])
    requires var a' := Numbers.TrimStart(a[1..]);
      Hyphenate(a' + w + b) == Hyphenate(a') + "-" + Hyphenate(b)
    ensures Hyphenate(a + w + b) == Hyphenate(a) + "-" + Hyphenate(b)
  {
    var a' := Numbers.TrimStart(a[1..]);
    assert HasText(a[1..]) by {
      assert !IsWhitespace(a[1..][|a| - 2]);
    }
    SkipFirstRunOfThree(a, w, b);
    assert Hyphenate(a) == "-" + Hyphenate(a');
    Regroup(Hyphenate(a + w + b), "-", Hyphenate(a'), Hyphenate(b));
  }

  /** A leading word character is kept. */
  lemma KeepFirst(a: string, rest: string)
    requires |a| > 0 && !IsWhitespace(a[0])
    ensures Hyphenate(a + rest) == [a[0]] + Hyphenate(a[1..] + rest)
  {
    var x := a + rest;
    assert x[0] == a[0] && x[1..] == a[1..] + rest;
  }

  /** `KeepFirst` with the rest split in two. */
  lemma KeepFirstOfThree(a: string, w: string, b: string)
    requires |a| > 0 && !IsWhitespace(a[0])
    ensures Hyphenate(a + w + b) == [a[0]] + Hyphenate(a[1..] + w + b)
  {
    KeepFirst(a, w + b);
    assert a + (w + b) == a + w + b && a[1..] + (w + b) == a[1..] + w + b;
  }

  /** A leading run of whitespace inside text becomes one hyphen. */
  lemma SkipFirstRun(a: string, rest: string)
    requires |a| > 0 && IsWhitespace(a[0]) && HasText(a[1..])
    ensures Hyphenate(a + rest) == "-" + Hyphenate(Numbers.TrimStart(a[1..]) + rest)
  {
    var x := a + rest;
    assert x[0] == a[0] && x[1..] == a[1..] + rest;
    TrimStartAppend(a[1..], rest);
  }

  /** `SkipFirstRun` with the rest split in two. */
  lemma SkipFirstRunOfThree(a: string, w: string, b: string)
    requires |a| > 0 && IsWhitespace(a[0]) && HasText(a[1..])
    ensures Hyphenate(a + w + b) == "-" + Hyphenate(Numbers.TrimStart(a[1..]) + w + b)
  {
    var a' := Numbers.TrimStart(a[1..]);
    SkipFirstRun(a, w + b);
    assert a + (w + b) == a + w + b && a' + (w + b) == a' + w + b;
  }

  /** Concatenation regrouped around the hyphen. */
  lemma Regroup(x: string, h: string, y: string, b: string)
    requires x == h + (y + "-" + b)
    ensures x == h + y + "-" + b
  {
  }

  /** A leading run of whitespace before a word is one hyphen. */
  lemma RunThenWord(w: string, b: string)
    requires |w| > 0 && AllWhitespace(w)
    requires |b| == 0 || !IsWhitespace(b[0])
    ensures Hyphenate(w + b) == "-" + Hyphenate(b)
  {
    var x := w + b;
    assert IsWhitespace(x[0]);
    assert Numbers.TrimStart(x[1..]) == b by {
      assert x[1..] == w[1..] + b;
      TrimStartPast(w[1..], b);
      assert Numbers.TrimStart(b) == b;
    }
  }

  /** A word: ASCII letters, digits and underscores only, at least one. */
  predicate IsWord(s: string)
  {
    |s| > 0 && forall i :: 0 <= i < |s| ==> IsWordChar(s[i])
  }

  /** Two words separated by a run of whitespace give the lower-cased words
      joined by one hyphen. */
  lemma TwoWords(a: string, w: string, b: string)
    requires IsWord(a) && IsWord(b)
    requires |w| > 0 && AllWhitespace(w)
    ensures GenerateSlug(a + w + b) == Lower(a) + "-" + Lower(b)
  {
    var A, B := Lower(a), Lower(b);
    LowerAroundBlank(a, w, b);
    WordStaysWord(a);
    WordStaysWord(b);
    HyphenateWords(A, w, B);
    JoinedWordsAreSlug(A, B);
    SlugIsStable(A + "-" + B);
  }

  /** Lower-casing leaves the whitespace between two strings alone. */
  lemma LowerAroundBlank(a: string, w: string, b: string)
    requires AllWhitespace(w)
    ensures Lower(a + w + b) == Lower(a) + w + Lower(b)
  {
    LowerAppend(a + w, b);
    LowerAppend(a, w);
    LowerBlank(w);
  }

  /** Trimming and hyphenating two words around a run of whitespace joins
      them with one hyphen. */
  lemma HyphenateWords(A: string, w: string, B: string)
    requires IsWord(A) && IsWord(B)
    requires |w| > 0 && AllWhitespace(w)
    ensures Hyphenate(Trim(A + w + B)) == A + "-" + B
  {
    WordHasNoBlank(A);
    WordHasNoBlank(B);
    WordTrimsToItself(A, w, B);
    HyphenateRun(A, w, B);
    HyphenateKeeps(A);
    HyphenateKeeps(B);
  }

  /** A word holds no whitespace. */
  lemma WordHasNoBlank(a: string)
    requires IsWord(a)
    ensures forall i :: 0 <= i < |a| ==> !IsWhitespace(a[i])
  {
    forall i | 0 <= i < |a|
      ensures !IsWhitespace(a[i])
    {
      assert IsWordChar(a[i]);
    }
  }

  /** Lower-casing a word gives a lower-case word. */
  lemma WordStaysWord(a: string)
    requires IsWord(a)
    ensures IsWord(Lower(a)) && NoUpper(Lower(a))
  {
  }

  /** Text that starts and ends with a word character is already trimmed. */
  lemma WordTrimsToItself(A: string, w: string, B: string)
    requires IsWord(A) && IsWord(B)
    ensures Trim(A + w + B) == A + w + B
  {
    var x := A + w + B;
    assert !IsWhitespace(x[0]) && !IsWhitespace(x[|x| - 1]);
  }

  /** Two lower-case words joined by a hyphen form a slug. */
  lemma JoinedWordsAreSlug(A: string, B: string)
    requires IsWord(A) && IsWord(B) && NoUpper(A) && NoUpper(B)
    ensures IsSlug(A + "-" + B)
  {
    var x := A + "-" + B;
    forall i | 0 <= i < |x|
      ensures IsSlugChar(x[i])
    {
      if i < |A| {
        assert x[i] == A[i];
      } else if i > |A| {
        assert x[i] == B[i - |A| - 1];
      }
    }
    forall i | 0 <= i < |x| - 1
      ensures !(x[i] == '-' && x[i + 1] == '-')
    {
      if i < |A| {
        assert x[i] == A[i];
      } else {
        assert x[i + 1] == B[i - |A|];
      }
    }
  }

  /** The stripping and collapsing steps leave a slug alone. */
  lemma SlugIsStable(s: string)
    requires IsSlug(s)
    ensures CollapseHyphens(StripNonWord(s)) == s
  {
    FilterKeepsAll(s, IsWordOrHyphen);
    CollapseKeeps(s);
  }

  /** `generateSlug("Maruti  Swift") == "maruti-swift"`. */
  lemma MarutiSwift(text: string)
    requires text == "Maruti  Swift"
    ensures GenerateSlug(text) == "maruti-swift"
  {
    var a, w, b := text[..6], text[6..8], text[8..];
    ExampleParts(text);
    TwoWords(a, w, b);
    ExampleLower(a, b);
  }

  /** The example is two words around two blanks. */
  lemma ExampleParts(text: string)
    requires text == "Maruti  Swift"
    ensures text == text[..6] + text[6..8] + text[8..]
    ensures IsWord(text[..6]) && IsWord(text[8..]) && |text[6..8]| > 0 && AllWhitespace(text[6..8])
  {
  }

  /** The example's words lower-cased and joined. */
  lemma ExampleLower(a: string, b: string)
    requires a == "Maruti" && b == "Swift"
    ensures Lower(a) + "-" + Lower(b) == "maruti-swift"
  {
    assert Lower(a) == "maruti";
    assert Lower(b) == "swift";
  }
}
