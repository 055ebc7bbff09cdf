/** Number parsing at the two boundaries the core crosses: JavaScript's
    `parseInt(text)` (and the `parseInt(x) || d` defaulting idiom) in the
    controllers, and Postgres reading a text parameter as a number in the
    price filter. A JavaScript `NaN` is `None`. */
module Numbers {
  import opened Common
  import Text

  /** The value of a digit character in base 10 or 16, if it is one. */
  function DigitValue(c: char, radix: int): Option<nat>
  {
    if '0' <= c <= '9' && (c as int - '0' as int) < radix then Some(c as int - '0' as int)
    else if radix == 16 && 'a' <= c <= 'f' then Some(c as int - 'a' as int + 10)
    else if radix == 16 && 'A' <= c <= 'F' then Some(c as int - 'A' as int + 10)
    else None
  }

  /** Every character of `s` is a digit of `radix`. */
  predicate AllDigits(s: string, radix: int)
  {
    forall i :: 0 <= i < |s| ==> DigitValue(s[i], radix).Some?
  }

  /** The length of the longest prefix of `s` made of digits. */
  function DigitRun(s: string, radix: int): (n: nat)
    ensures n <= |s|
    ensures AllDigits(s[..n], radix)
    ensures n < |s| ==> DigitValue(s[n], radix).None?
  {
    if |s| == 0 || DigitValue(s[0], radix).None? then 0
    else
      var n := 1 + DigitRun(s[1..], radix);
      assert s[..n] == [s[0]] + s[1..][..n - 1];
      n
  }

  /** The value of a digit string, most significant digit first. */
  function DigitsValue(s: string, radix: int): nat
    requires radix == 10 || radix == 16
    requires AllDigits(s, radix)
  {
    if |s| == 0 then 0
    else DigitsValue(s[..|s| - 1], radix) * radix + DigitValue(s[|s| - 1], radix).value
  }

  /** `s` without its leading whitespace. */
  function TrimStart(s: string): (r: string)
    ensures |r| <= |s| && r == s[|s| - |r|..]
    ensures |r| > 0 ==> !Text.IsWhitespace(r[0])
    ensures forall i :: 0 <= i < |s| - |r| ==> Text.IsWhitespace(s[i])
  {
    if |s| > 0 && Text.IsWhitespace(s[0]) then TrimStart(s[1..]) else s
  }

  /** The magnitude `parseInt` reads after the sign: hexadecimal after a
      `0x`/`0X` prefix, decimal otherwise, up to the first non-digit; `None`
      when no digit is read. */
  function ParseMagnitude(u: string): Option<nat>
  {
    var hex := |u| >= 2 && u[0] == '0' && (u[1] == 'x' || u[1] == 'X');
    var radix := if hex then 16 else 10;
    var w := if hex then u[2..] else u;
    var n := DigitRun(w, radix);
    if n == 0 then None else Some(DigitsValue(w[..n], radix))
  }

  /** The number `parseInt` reads from text that starts at its first
      non-blank character: an optional sign, then the magnitude. */
  function ParseSigned(t: string): Option<int>
  {
    var negative := |t| > 0 && t[0] == '-';
    var u := if |t| > 0 && (t[0] == '-' || t[0] == '+') then t[1..] else t;
    match ParseMagnitude(u)
    case None => None
    case Some(m) => Some(if negative then -(m as int) else m)
  }

  /** JavaScript `parseInt(text)` with no radix: skip leading whitespace,
      take an optional sign, then read the magnitude; `None` (NaN) when no
      digit is read. Negative zero is `Some(0)`, which is equally falsy. */
  function ParseInt(text: string): Option<int>
  {
    ParseSigned(TrimStart(text))
  }

  /** `parseInt(param) || fallback`: a missing parameter (`parseInt(undefined)`),
      NaN and 0 all give the fallback. */
  function ParseIntOr(param: Option<string>, fallback: int): (r: int)
    ensures param.None? ==> r == fallback
    ensures param.Some? && ParseInt(param.value) == None ==> r == fallback
    ensures param.Some? && ParseInt(param.value) == Some(0) ==> r == fallback
    ensures param.Some? && ParseInt(param.value).Some? && ParseInt(param.value).value != 0 ==>
              r == ParseInt(param.value).value
  {
    if param.None? then fallback
    else match ParseInt(param.value)
      case None => fallback
      case Some(v) => if v == 0 then fallback else v
  }

  /** A decimal digit character for `0 <= d < 10`. */
  function DigitChar(d: nat): char
    requires d < 10
  {
    ('0' as int + d) as char
  }

  /** `String(n)` for a natural number: its decimal digits, no leading zero. */
  function DecimalText(n: nat): (r: string)
    ensures |r| > 0
    ensures AllDigits(r, 10)
    ensures r[0] != '0' || n == 0
  {
    if n < 10 then [DigitChar(n)]
    else
      var r := DecimalText(n / 10) + [DigitChar(n % 10)];
      assert r[0] == DecimalText(n / 10)[0];
      r
  }

  /** Reading back the digits of `n` yields `n`. */
  lemma {:induction false} DecimalTextValue(n: nat)
    ensures DigitsValue(DecimalText(n), 10) == n
  {
    var r := DecimalText(n);
    if n >= 10 {
      DecimalTextValue(n / 10);
      assert r[..|r| - 1] == DecimalText(n / 10);
    }
  }

  /** A run of decimal digits has no hexadecimal prefix, so all of it is
      read. */
  lemma MagnitudeOfDigits(s: string)
    requires |s| > 0 && AllDigits(s, 10)
    ensures ParseMagnitude(s) == Some(DigitsValue(s, 10))
  {
    assert |s| < 2 || DigitValue(s[1], 10).Some?;
    DigitRunAll(s, 10);
    assert s[..|s|] == s;
  }

  /** A run of digits starts with no whitespace. */
  lemma DigitsUntrimmed(s: string)
    requires |s| > 0 && AllDigits(s, 10)
    ensures TrimStart(s) == s
  {
    assert DigitValue(s[0], 10).Some?;
  }

  /** A run of digits has no whitespace or sign, so `parseInt` reads all of
      it. */
  lemma ParseDigits(s: string)
    requires |s| > 0 && AllDigits(s, 10)
    ensures ParseInt(s) == Some(DigitsValue(s, 10) as int)
  {
    SignedDigits(s);
    DigitsUntrimmed(s);
  }

  /** Without a sign, the magnitude is the value. */
  lemma SignedDigits(s: string)
    requires |s| > 0 && AllDigits(s, 10)
    ensures ParseSigned(s) == Some(DigitsValue(s, 10) as int)
  {
    MagnitudeOfDigits(s);
  }

  /** The same digits after a minus sign read as the negated value. */
  lemma ParseNegativeDigits(s: string, v: nat)
    requires |s| > 0 && AllDigits(s, 10) && DigitsValue(s, 10) == v
    ensures ParseInt("-" + s) == Some(-(v as int))
  {
    MagnitudeOfDigits(s);
    NegateMagnitude(s, v);
    var m := "-" + s;
    assert m[0] == '-';
    assert !Text.IsWhitespace('-');
    assert TrimStart(m) == m;
  }

  /** A minus sign negates whatever magnitude follows it. */
  lemma NegateMagnitude(s: string, v: nat)
    requires ParseMagnitude(s) == Some(v)
    ensures ParseSigned("-" + s) == Some(-(v as int))
  {
    var m := "-" + s;
    assert m[0] == '-' && m[1..] == s;
  }

  /** The digit run of a digit string is the whole string. */
  lemma {:induction false} DigitRunAll(s: string, radix: int)
    requires AllDigits(s, radix)
    ensures DigitRun(s, radix) == |s|
  {
    if |s| > 0 {
      DigitRunAll(s[1..], radix);
    }
  }

  /** `parseInt(String(n)) == n`, and the same for `-n`: the round trip the
      controllers rely on for numeric path and query parameters. */
  lemma ParseIntRoundTrip(n: nat)
    ensures ParseInt(DecimalText(n)) == Some(n as int)
    ensures ParseInt("-" + DecimalText(n)) == Some(-(n as int))
  {
    DecimalTextValue(n);
    ParseDigits(DecimalText(n));
    ParseNegativeDigits(DecimalText(n), n);
  }

  /** A value of Postgres's `numeric` type: a finite decimal, `NaN`, or one
      of the two infinities. */
  datatype Numeric = Finite(value: real) | NaN | PlusInfinity | MinusInfinity

  /** Where a value falls in `numeric`'s order: minus infinity, the finite
      values, plus infinity, and `NaN` above everything. */
  function Rank(x: Numeric): nat
  {
    match x
    case MinusInfinity => 0
    case Finite(_) => 1
    case PlusInfinity => 2
    case NaN => 3
  }

  /** `a <= b` between two `numeric` values. `NaN` equals itself and is
      greater than every other value. */
  predicate NumericLe(a: Numeric, b: Numeric)
  {
    if a.Finite? && b.Finite? then a.value <= b.value else Rank(a) <= Rank(b)
  }

  /** `numeric`'s comparison is a total order. */
  lemma NumericLeTotalOrder(a: Numeric, b: Numeric, c: Numeric)
    ensures NumericLe(a, a)
    ensures NumericLe(a, b) || NumericLe(b, a)
    ensures NumericLe(a, b) && NumericLe(b, a) ==> a == b
    ensures NumericLe(a, b) && NumericLe(b, c) ==> NumericLe(a, c)
  {
  }

  /** The blanks Postgres skips around a number: C's `isspace`. */
  predicate IsBlank(c: char)
  {
    c == ' ' || c == '\t' || c == '\n' || c == '\r' || c == '\U{000B}' || c == '\U{000C}'
  }

  /** Every character of `s` is a blank. */
  predicate AllBlank(s: string)
  {
    forall i :: 0 <= i < |s| ==> IsBlank(s[i])
  }

  /** `s` without its leading and trailing blanks. */
  function TrimBlanks(s: string): string
  {
    if |s| > 0 && IsBlank(s[0]) then TrimBlanks(s[1..])
    else if |s| > 0 && IsBlank(s[|s| - 1]) then TrimBlanks(s[..|s| - 1])
    else s
  }

  /** `10^k`. */
  function Pow10(k: nat): (r: nat)
    ensures r > 0
  {
    if k == 0 then 1 else 10 * Pow10(k - 1)
  }

  /** `m * 10^e`. */
  function Scaled(m: nat, e: int): real
  {
    if e >= 0 then (m * Pow10(e)) as real else (m as real) / (Pow10(-e) as real)
  }

  /** `s` without its leading blanks. */
  function SkipBlanks(s: string): (r: string)
    ensures |r| <= |s|
  {
    if |s| > 0 && IsBlank(s[0]) then SkipBlanks(s[1..]) else s
  }

  /** What `strtol` reads once the blanks are skipped: an optional sign and
      at least one digit, making up the whole rest. */
  function ReadExponentDigits(x: string): Option<int>
  {
    var negative := |x| > 0 && x[0] == '-';
    var d := if |x| > 0 && (x[0] == '-' || x[0] == '+') then x[1..] else x;
    if |d| == 0 || !AllDigits(d, 10) then None
    else
      var e: int := DigitsValue(d, 10);
      Some(if negative then -e else e)
  }

  /** The exponent part after the digits: nothing, or `e`/`E` followed by
      what `strtol` reads: blanks, an optional sign and at least one
      digit. */
  function ParseExponent(t: string): Option<int>
  {
    if |t| == 0 then Some(0)
    else if t[0] != 'e' && t[0] != 'E' then None
    else
      ReadExponentDigits(SkipBlanks(t[1..]))
  }

  /** A decimal's mantissa cut at its point: the digits before it, the
      digits after it, and what follows them. */
  datatype Pieces = Pieces(whole: string, frac: string, tail: string)

  /** Cuts `u` into the digits before the first non-digit, and, when that is
      a point, the digits after it; the rest is the tail. */
  function SplitDecimal(u: string): (p: Pieces)
    ensures AllDigits(p.whole, 10) && AllDigits(p.frac, 10)
  {
    var n := DigitRun(u, 10);
    var rest := u[n..];
    if |rest| > 0 && rest[0] == '.' then
      var after := rest[1..];
      Pieces(u[..n], after[..DigitRun(after, 10)], after[DigitRun(after, 10)..])
    else Pieces(u[..n], "", rest)
  }

  /** Two digit strings joined are a digit string. */
  lemma DigitsConcat(a: string, b: string)
    requires AllDigits(a, 10) && AllDigits(b, 10)
    ensures AllDigits(a + b, 10)
  {
    assert forall i :: 0 <= i < |a| ==> (a + b)[i] == a[i];
    assert forall i :: |a| <= i < |a + b| ==> (a + b)[i] == b[i - |a|];
  }

  /** The unsigned part of the decimal syntax: digits with at most one
      decimal point and at least one digit in all, then an optional
      exponent. */
  function ParseUnsigned(u: string): Option<real>
  {
    var p := SplitDecimal(u);
    if |p.whole| + |p.frac| == 0 then None
    else
      match ParseExponent(p.tail)
      case None => None
      case Some(e) =>
        DigitsConcat(p.whole, p.frac);
        Some(Scaled(DigitsValue(p.whole + p.frac, 10), e - |p.frac|))
  }

  /** The finite syntax of `numeric` input without blanks: an optional sign,
      then the unsigned syntax. */
  function ParseDecimal(t: string): Option<real>
  {
    if |t| > 0 && t[0] == '-' then
      match ParseUnsigned(t[1..])
      case Some(v) => Some(-v)
      case None => None
    else if |t| > 0 && t[0] == '+' then ParseUnsigned(t[1..])
    else ParseUnsigned(t)
  }

  /** The words `numeric` input accepts in place of digits, already
      lower-cased. */
  function Word(l: string): Option<Numeric>
  {
    if l == "nan" then Some(NaN)
    else if l == "infinity" || l == "+infinity" || l == "inf" || l == "+inf" then Some(PlusInfinity)
    else if l == "-infinity" || l == "-inf" then Some(MinusInfinity)
    else None
  }

  /** Postgres reading a text parameter as `numeric` (PostgreSQL 14 and
      later): blanks around the value are skipped; `NaN`, `Infinity` and
      `inf`, the latter two with an optional sign, are read ignoring case;
      anything else must be a decimal in the syntax of `ParseDecimal`.
      `None` is the error that fails the statement. */
  function ParseNumeric(text: string): Option<Numeric>
  {
    var t := TrimBlanks(text);
    match Word(Text.Lower(t))
    case Some(x) => Some(x)
    case None =>
      match ParseDecimal(t)
      case Some(v) => Some(Finite(v))
      case None => None
  }

  /** Postgres reads back every integer it is given in decimal. */
  lemma ParseNumericRoundTrip(n: nat)
    ensures ParseNumeric(DecimalText(n)) == Some(Finite(n as real))
    ensures ParseNumeric("-" + DecimalText(n)) == Some(Finite(-(n as real)))
  {
    DecimalTextValue(n);
    ReadsDigits(DecimalText(n));
    var m := "-" + DecimalText(n);
    assert m[1..] == DecimalText(n);
    ReadsNegativeDigits(m);
  }

  /** A digit string is read as the integer it writes. */
  lemma ReadsDigits(d: string)
    requires |d| > 0 && AllDigits(d, 10)
    ensures ParseNumeric(d) == Some(Finite(DigitsValue(d, 10) as real))
  {
    UnsignedDigits(d);
    assert DigitValue(d[0], 10).Some? && DigitValue(d[|d| - 1], 10).Some?;
    ReadsDecimal(d, DigitsValue(d, 10) as real);
  }

  /** A minus sign and a digit string are read as the negated integer. */
  lemma ReadsNegativeDigits(m: string)
    requires |m| > 1 && m[0] == '-' && AllDigits(m[1..], 10)
    ensures ParseNumeric(m) == Some(Finite(-(DigitsValue(m[1..], 10) as real)))
  {
    NegativeDigits(m);
    ReadsDecimal(m, -(DigitsValue(m[1..], 10) as real));
  }

  /** The decimal syntax reads a minus sign and digits as the negated
      integer; the text begins and ends with what `ReadsDecimal` needs. */
  lemma NegativeDigits(m: string)
    requires |m| > 1 && m[0] == '-' && AllDigits(m[1..], 10)
    ensures ParseDecimal(m) == Some(-(DigitsValue(m[1..], 10) as real))
    ensures DigitValue(m[1], 10).Some? && DigitValue(m[|m| - 1], 10).Some?
  {
    UnsignedDigits(m[1..]);
    assert m[1..][0] == m[1] && m[1..][|m| - 2] == m[|m| - 1];
    NegatedDecimal(m, DigitsValue(m[1..], 10) as real);
  }

  /** Text with no blank at either end that is not one of the words is read
      through the decimal syntax. */
  lemma ReadsDecimal(t: string, x: real)
    requires |t| > 0
    requires DigitValue(t[0], 10).Some? || (t[0] == '-' && |t| > 1 && DigitValue(t[1], 10).Some?)
    requires !IsBlank(t[|t| - 1])
    requires ParseDecimal(t) == Some(x)
    ensures ParseNumeric(t) == Some(Finite(x))
  {
    NoBlankEnds(t);
    NotAWord(t);
  }

  /** A digit string is the integer it writes. */
  lemma UnsignedDigits(d: string)
    requires |d| > 0 && AllDigits(d, 10)
    ensures ParseDecimal(d) == Some(DigitsValue(d, 10) as real)
  {
    SplitDigits(d);
    assert d + "" == d;
    assert ParseExponent("") == Some(0);
    ScaledByOne(DigitsValue(d, 10));
    assert ParseUnsigned(d) == Some(DigitsValue(d, 10) as real);
    assert DigitValue(d[0], 10).Some?;
  }

  /** A minus sign in front of unsigned text negates the decimal it reads. */
  lemma NegatedDecimal(m: string, x: real)
    requires |m| > 1 && m[0] == '-' && m[1] != '-' && m[1] != '+'
    requires ParseDecimal(m[1..]) == Some(x)
    ensures ParseDecimal(m) == Some(-x)
  {
  }

  /** Scaling by `10^0` keeps the value. */
  lemma ScaledByOne(m: nat)
    ensures Scaled(m, 0) == m as real
  {
    assert Pow10(0) == 1;
  }

  /** A digit string has no point and no tail. */
  lemma SplitDigits(d: string)
    requires AllDigits(d, 10)
    ensures SplitDecimal(d) == Pieces(d, "", "")
  {
    DigitRunAll(d, 10);
    assert d[..|d|] == d;
  }

  /** Digits, a point and digits split at the point with no tail. */
  lemma SplitPointed(a: string, b: string)
    requires AllDigits(a, 10) && AllDigits(b, 10)
    ensures SplitDecimal(a + "." + b) == Pieces(a, b, "")
  {
    var t := a + "." + b;
    DigitRunPrefix(a, "." + b);
    assert t == a + ("." + b);
    assert t[..|a|] == a;
    assert t[|a|..] == "." + b;
    assert t[|a|..][1..] == b;
    DigitRunAll(b, 10);
    assert b[..|b|] == b && b[|b|..] == "";
  }

  /** Text that starts with a digit or with `-` and a digit, and ends with a
      digit or a point, has no blank to trim. */
  lemma NoBlankEnds(t: string)
    requires |t| > 0 && !IsBlank(t[0]) && !IsBlank(t[|t| - 1])
    ensures TrimBlanks(t) == t
  {
  }

  /** Text that starts with a digit, or with `-` and a digit, is not one of
      the words `NaN`, `Infinity` or `inf`. */
  lemma NotAWord(t: string)
    requires |t| > 0
    requires DigitValue(t[0], 10).Some? || (t[0] == '-' && |t| > 1 && DigitValue(t[1], 10).Some?)
    ensures Word(Text.Lower(t)) == None
  {
    var l := Text.Lower(t);
    assert l[0] == Text.LowerChar(t[0]);
    if t[0] == '-' {
      assert l[1] == Text.LowerChar(t[1]);
    }
  }

  /** Text made of digits, a point, and digits (at least one digit before
      the point) is read as the decimal it writes. */
  lemma ParsePointed(a: string, b: string)
    requires |a| > 0 && AllDigits(a, 10) && AllDigits(b, 10)
    ensures ParseNumeric(a + "." + b) == Some(Finite((DigitsValue(a + b, 10) as real) / (Pow10(|b|) as real)))
  {
    var t := a + "." + b;
    var x := (DigitsValue(a + b, 10) as real) / (Pow10(|b|) as real);
    PointedEnds(a, b, t);
    PointedDecimal(a, b);
    ReadsDecimal(t, x);
  }

  /** Digits, a point and digits start with a digit and end in no blank. */
  lemma PointedEnds(a: string, b: string, t: string)
    requires |a| > 0 && AllDigits(a, 10) && AllDigits(b, 10) && t == a + "." + b
    ensures |t| > 0 && DigitValue(t[0], 10).Some? && !IsBlank(t[|t| - 1])
  {
    assert t[0] == a[0];
    assert t[|t| - 1] == if |b| == 0 then '.' else b[|b| - 1];
  }

  /** The decimal syntax reads digits, a point and digits as the mantissa
      scaled down by the number of digits after the point. */
  lemma PointedDecimal(a: string, b: string)
    requires |a| > 0 && AllDigits(a, 10) && AllDigits(b, 10)
    ensures ParseDecimal(a + "." + b) == Some((DigitsValue(a + b, 10) as real) / (Pow10(|b|) as real))
  {
    var t := a + "." + b;
    SplitPointed(a, b);
    assert ParseExponent("") == Some(0);
    ScaledDown(DigitsValue(a + b, 10), |b|);
    assert ParseUnsigned(t) == Some((DigitsValue(a + b, 10) as real) / (Pow10(|b|) as real));
    assert t[0] == a[0] && DigitValue(a[0], 10).Some?;
  }

  /** Scaling by `10^-k` divides by `10^k`. */
  lemma ScaledDown(m: nat, k: nat)
    ensures Scaled(m, 0 - k) == (m as real) / (Pow10(k) as real)
  {
    if k == 0 {
      ScaledByOne(m);
    }
  }

  /** The digit run of digits followed by a non-digit stops at the
      non-digit. */
  lemma {:induction false} DigitRunPrefix(a: string, rest: string)
    requires AllDigits(a, 10)
    requires |rest| > 0 && DigitValue(rest[0], 10).None?
    ensures DigitRun(a + rest, 10) == |a|
  {
    if |a| > 0 {
      assert (a + rest)[1..] == a[1..] + rest;
      DigitRunPrefix(a[1..], rest);
    } else {
      assert a + rest == rest;
    }
  }

  /** Blanks around the text do not change what Postgres reads. */
  lemma BlanksIgnored(pre: string, t: string, post: string)
    requires AllBlank(pre) && AllBlank(post)
    ensures ParseNumeric(pre + t + post) == ParseNumeric(t)
  {
    var r := TrimBlanks(t);
    var a, b := TrimSplit(t);
    assert pre + t + post == (pre + a) + r + (b + post);
    TrimUnique(pre + t + post, pre + a, r, b + post);
  }

  /** A trimmed text is the core of the original between two runs of
      blanks, and has no blank at either end. */
  lemma {:induction false} TrimSplit(t: string) returns (a: string, b: string)
    ensures AllBlank(a) && AllBlank(b) && t == a + TrimBlanks(t) + b
    ensures var r := TrimBlanks(t); |r| == 0 || (!IsBlank(r[0]) && !IsBlank(r[|r| - 1]))
    decreases |t|
  {
    if |t| > 0 && IsBlank(t[0]) {
      var a', b' := TrimSplit(t[1..]);
      a, b := [t[0]] + a', b';
      assert t == [t[0]] + t[1..];
    } else if |t| > 0 && IsBlank(t[|t| - 1]) {
      var a', b' := TrimSplit(t[..|t| - 1]);
      a, b := a', b' + [t[|t| - 1]];
      assert t == t[..|t| - 1] + [t[|t| - 1]];
    } else {
      a, b := "", "";
      assert t == a + t + b;
    }
  }

  /** Blanks, then a core with no blank at either end, then blanks: trimming
      yields the core. */
  lemma {:induction false} TrimUnique(s: string, a: string, r: string, b: string)
    requires s == a + r + b && AllBlank(a) && AllBlank(b)
    requires |r| == 0 || (!IsBlank(r[0]) && !IsBlank(r[|r| - 1]))
    ensures TrimBlanks(s) == r
    decreases |s|
  {
    if |a| > 0 {
      assert s[1..] == a[1..] + r + b;
      TrimUnique(s[1..], a[1..], r, b);
    } else if |r| == 0 && |b| > 0 {
      assert s == b;
      assert s[1..] == a + r + b[1..];
      TrimUnique(s[1..], a, r, b[1..]);
    } else if |b| > 0 {
      assert s[0] == r[0];
      assert s[..|s| - 1] == a + r + b[..|b| - 1];
      TrimUnique(s[..|s| - 1], a, r, b[..|b| - 1]);
    } else {
      assert s == r;
    }
  }

  /** A decimal with a fraction is a number to Postgres. */
  lemma PointExample()
    ensures ParseNumeric("1.5") == Some(Finite(1.5))
  {
    assert "1" + "5" == "15";
    DigitsExample();
    assert 1.5 == (15 as real) / (Pow10(1) as real);
    PointedText("1", "5", "1.5", 15, 1.5);
  }

  /** `ParsePointed` for a text, mantissa and value already in hand. */
  lemma PointedText(a: string, b: string, t: string, m: nat, x: real)
    requires |a| > 0 && AllDigits(a, 10) && AllDigits(b, 10)
    requires t == a + "." + b && m == DigitsValue(a + b, 10)
    requires x == (m as real) / (Pow10(|b|) as real)
    ensures ParseNumeric(t) == Some(Finite(x))
  {
    ParsePointed(a, b);
  }

  /** Blanks around an integer are skipped. */
  lemma PaddedExample()
    ensures ParseNumeric(" 100 ") == Some(Finite(100.0))
  {
    HundredExample();
    BlanksIgnored(" ", "100", " ");
    assert " " + "100" + " " == " 100 ";
  }

  /** `100` reads as one hundred. */
  lemma HundredExample()
    ensures ParseNumeric("100") == Some(Finite(100.0))
  {
    ReadsDigits("100");
    assert "100"[..2] == "10" && "10"[..1] == "1";
  }

  /** `10` reads as ten. */
  lemma TenExample()
    ensures ParseNumeric("10") == Some(Finite(10.0))
  {
    ReadsDigits("10");
    assert "10"[..1] == "1";
  }

  /** The digits `15` are fifteen, and `10^1` is ten. */
  lemma DigitsExample()
    ensures DigitsValue("15", 10) == 15 && Pow10(1) == 10
  {
    assert "15"[..1] == "1";
  }

  /** `1e5` reads as one hundred thousand. */
  lemma ExponentExample()
    ensures ParseNumeric("1e5") == Some(Finite(100000.0))
  {
    var t := "1e5";
    assert DigitRun(t, 10) == 1 by {
      assert t[1..][0] == 'e';
    }
    assert t[..1] == "1" && t[1..] == "e5";
    assert "e5"[1..] == "5";
    assert DigitsValue("5", 10) == 5 by {
      assert "5"[..0] == "";
    }
    assert DigitsValue("1" + "", 10) == 1 by {
      assert "1" + "" == "1" && "1"[..0] == "";
    }
    assert Pow10(5) == 100000;
    assert ParseDecimal(t) == Some(100000.0);
    ReadsDecimal(t, 100000.0);
  }

  /** Blanks between `e` and the exponent are skipped: `1e 5` reads as
      one hundred thousand. */
  lemma BlankExponentExample()
    ensures ParseNumeric("1e 5") == Some(Finite(100000.0))
  {
    var t := "1e 5";
    assert DigitRun(t, 10) == 1 by {
      assert t[1..][0] == 'e';
    }
    assert t[..1] == "1" && t[1..] == "e 5";
    assert "e 5"[1..] == " 5" && " 5"[1..] == "5";
    assert SkipBlanks(" 5") == "5";
    assert DigitsValue("5", 10) == 5 by {
      assert "5"[..0] == "";
    }
    assert DigitsValue("1" + "", 10) == 1 by {
      assert "1" + "" == "1" && "1"[..0] == "";
    }
    assert Pow10(5) == 100000;
    assert ParseDecimal(t) == Some(100000.0);
    ReadsDecimal(t, 100000.0);
  }

  /** `NaN` and `-Infinity`, in any case, are the special values. */
  lemma WordExamples()
    ensures ParseNumeric("NaN") == Some(NaN)
    ensures ParseNumeric("-Infinity") == Some(MinusInfinity)
    ensures ParseNumeric("nan") == Some(NaN)
  {
    NoBlankEnds("NaN");
    NoBlankEnds("nan");
    NoBlankEnds("-Infinity");
    assert Text.Lower("NaN") == "nan";
    assert Text.Lower("nan") == "nan";
    assert Text.Lower("-Infinity") == "-infinity";
  }

  /** Text with no blank at either end that is neither a word nor in the
      decimal syntax is refused. */
  lemma Refused(t: string)
    requires |t| > 0 && !IsBlank(t[0]) && !IsBlank(t[|t| - 1])
    requires Word(Text.Lower(t)) == None && ParseDecimal(t) == None
    ensures ParseNumeric(t) == None
  {
    NoBlankEnds(t);
  }

  /** An exponent needs digits. */
  lemma ExponentWithoutDigits()
    ensures ParseNumeric("1e") == None
  {
    NotAWord("1e");
    assert DigitRun("1e", 10) == 1 by {
      assert "1e"[1..][0] == 'e';
    }
    assert "1e"[1..] == "e" && "e"[1..] == "";
    assert ParseExponent("e") == None;
    assert ParseDecimal("1e") == None;
    Refused("1e");
  }

  /** A point alone has no digit. */
  lemma LonePoint()
    ensures ParseNumeric(".") == None
  {
    assert Text.Lower(".") == ".";
    assert DigitRun(".", 10) == 0;
    assert "."[0..] == "." && "."[1..] == "";
    assert SplitDecimal(".") == Pieces("", "", "");
    assert ParseDecimal(".") == None;
    Refused(".");
  }

  /** A second point ends the number and is not an exponent. */
  lemma SecondPoint()
    ensures ParseNumeric("1.2.3") == None
  {
    NotAWord("1.2.3");
    assert DigitRun("1.2.3", 10) == 1 by {
      assert "1.2.3"[1..][0] == '.';
    }
    var rest := "1.2.3"[1..];
    assert rest == ".2.3" && rest[1..] == "2.3";
    assert DigitRun("2.3", 10) == 1 by {
      assert "2.3"[1..][0] == '.';
    }
    assert "2.3"[1..] == ".3";
    assert SplitDecimal("1.2.3").tail == ".3";
    assert ParseDecimal("1.2.3") == None;
    Refused("1.2.3");
  }
}
