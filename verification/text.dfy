/** The few Python string operations the eye-tracker parser relies on:
    `str.split()` with no separator, `str.startswith`, `int(token)`,
    `float(token)` restricted to plain decimals, and `'%d' % n`. */
module Text {
  import opened Wrappers

  /** `str.isspace()` for a single character: exactly the characters on which
      `str.split()` with no argument breaks a line. */
  predicate IsSpace(c: char) {
    || c == ' ' || c == '\t' || c == '\n' || c == '\r'
    || c == '\U{000B}' || c == '\U{000C}'
    || ('\U{001C}' <= c <= '\U{001F}')
    || c == '\U{0085}' || c == '\U{00A0}' || c == '\U{1680}'
    || ('\U{2000}' <= c <= '\U{200A}')
    || c == '\U{2028}' || c == '\U{2029}' || c == '\U{202F}' || c == '\U{205F}'
    || c == '\U{3000}'
  }

  predicate NoSpace(s: string) {
    forall i :: 0 <= i < |s| ==> !IsSpace(s[i])
  }

  predicate AllSpace(s: string) {
    forall i :: 0 <= i < |s| ==> IsSpace(s[i])
  }

  /** A token is what `str.split()` can produce: non-empty, without whitespace. */
  predicate IsToken(t: string) {
    |t| > 0 && NoSpace(t)
  }

  /** A separator is a non-empty run of whitespace. */
  predicate IsSeparator(sep: string) {
    |sep| > 0 && AllSpace(sep)
  }

  predicate StartsWith(s: string, prefix: string) {
    |prefix| <= |s| && s[..|prefix|] == prefix
  }

  /** The longest whitespace-free prefix of `s`. */
  function Word(s: string): (w: string)
    ensures |w| <= |s| && w == s[..|w|]
    ensures NoSpace(w)
    ensures |w| == |s| || IsSpace(s[|w|])
  {
    if |s| == 0 || IsSpace(s[0]) then "" else [s[0]] + Word(s[1..])
  }

  /** `s.split()`: the maximal whitespace-free runs of `s`, in order. */
  function Split(s: string): (r: seq<string>)
    ensures forall k :: 0 <= k < |r| ==> IsToken(r[k])
    decreases |s|
  {
    if |s| == 0 then []
    else if IsSpace(s[0]) then Split(s[1..])
    else
      var w := Word(s);
      [w] + Split(s[|w|..])
  }

  /** `sep.join(ts)`. */
  function Join(ts: seq<string>, sep: string): string
  {
    if |ts| == 0 then ""
    else if |ts| == 1 then ts[0]
    else ts[0] + sep + Join(ts[1..], sep)
  }

  /** Leading whitespace never produces a token. */
  lemma {:induction false} SplitSkipsSpaces(sp: string, s: string)
    requires AllSpace(sp)
    ensures Split(sp + s) == Split(s)
    decreases |sp|
  {
    if |sp| > 0 {
      assert (sp + s)[1..] == sp[1..] + s;
      SplitSkipsSpaces(sp[1..], s);
    } else {
      assert sp + s == s;
    }
  }

  lemma {:induction false} WordOfToken(t: string, s: string)
    requires NoSpace(t)
    requires |s| == 0 || IsSpace(s[0])
    ensures Word(t + s) == t
    decreases |t|
  {
    if |t| == 0 {
      assert t + s == s;
    } else {
      assert (t + s)[1..] == t[1..] + s;
      WordOfToken(t[1..], s);
    }
  }

  /** A token followed by whitespace (or nothing) is split off as one field. */
  lemma {:induction false} SplitAfterToken(t: string, s: string)
    requires IsToken(t)
    requires |s| == 0 || IsSpace(s[0])
    ensures Split(t + s) == [t] + Split(s)
  {
    WordOfToken(t, s);
    assert (t + s)[|t|..] == s;
  }

  /** A token, then a separator, then anything: the token comes off first. */
  lemma {:induction false} SplitTokenSep(t: string, sep: string, s: string)
    requires IsToken(t) && IsSeparator(sep)
    ensures Split(t + sep + s) == [t] + Split(s)
  {
    assert t + sep + s == t + (sep + s);
    SplitAfterToken(t, sep + s);
    SplitSkipsSpaces(sep, s);
  }

  /** Splitting undoes joining with any whitespace separator. */
  lemma {:induction false} SplitJoin(ts: seq<string>, sep: string)
    requires forall k :: 0 <= k < |ts| ==> IsToken(ts[k])
    requires IsSeparator(sep)
    ensures Split(Join(ts, sep)) == ts
    decreases |ts|
  {
    if |ts| == 0 {
    } else if |ts| == 1 {
      SplitAfterToken(ts[0], "");
      assert ts[0] + "" == ts[0];
    } else {
      SplitTokenSep(ts[0], sep, Join(ts[1..], sep));
      SplitJoin(ts[1..], sep);
      assert ts == [ts[0]] + ts[1..];
    }
  }

  /** Trailing whitespace, such as the newline `readlines()` keeps, adds nothing. */
  lemma {:induction false} SplitJoinTrailing(ts: seq<string>, sep: string, eol: string)
    requires forall k :: 0 <= k < |ts| ==> IsToken(ts[k])
    requires IsSeparator(sep) && AllSpace(eol)
    ensures Split(Join(ts, sep) + eol) == ts
    decreases |ts|
  {
    if |ts| == 0 {
      SplitSkipsSpaces(eol, "");
      assert eol + "" == eol;
      assert Join(ts, sep) + eol == eol;
    } else if |ts| == 1 {
      SplitAfterToken(ts[0], eol);
      SplitSkipsSpaces(eol, "");
      assert eol + "" == eol;
    } else {
      SplitJoinTrailing(ts[1..], sep, eol);
      SplitJoinTrailingStep(ts, sep, eol);
    }
  }

  lemma {:induction false} SplitJoinTrailingStep(ts: seq<string>, sep: string, eol: string)
    requires |ts| > 1 && IsToken(ts[0]) && IsSeparator(sep)
    requires Split(Join(ts[1..], sep) + eol) == ts[1..]
    ensures Split(Join(ts, sep) + eol) == ts
  {
    assert Join(ts, sep) + eol == ts[0] + sep + (Join(ts[1..], sep) + eol);
    SplitTokenSep(ts[0], sep, Join(ts[1..], sep) + eol);
    assert ts == [ts[0]] + ts[1..];
  }

  // ----- integers -----

  predicate IsDigit(c: char) {
    '0' <= c <= '9'
  }

  predicate AllDigits(s: string) {
    forall i :: 0 <= i < |s| ==> IsDigit(s[i])
  }

  function DigitValue(c: char): nat
    requires IsDigit(c)
  {
    (c as int) - ('0' as int)
  }

  function DigitChar(d: nat): (c: char)
    requires d < 10
    ensures IsDigit(c) && DigitValue(c) == d
  {
    (('0' as int) + d) as char
  }

  /** The value of a string of decimal digits, most significant first. */
  function DigitsValue(s: string): nat
    requires AllDigits(s)
  {
    if |s| == 0 then 0 else DigitsValue(s[..|s| - 1]) * 10 + DigitValue(s[|s| - 1])
  }

  /** `int(token)`: an optional sign followed by at least one decimal digit. */
  function ParseInt(s: string): (r: Option<int>)
    ensures r.Some? <==>
      || (|s| > 0 && AllDigits(s))
      || (|s| > 1 && (s[0] == '+' || s[0] == '-') && AllDigits(s[1..]))
  {
    if |s| > 0 && (s[0] == '+' || s[0] == '-') then
      if |s| > 1 && AllDigits(s[1..]) then
        Some(if s[0] == '-' then -(DigitsValue(s[1..]) as int) else DigitsValue(s[1..]))
      else None
    else if |s| > 0 && AllDigits(s) then Some(DigitsValue(s))
    else None
  }

  /** A `+` sign changes nothing, a `-` sign negates, and an unsigned digit
      string reads as a natural number. */
  lemma {:induction false} ParseIntSigns(d: string)
    requires |d| > 0 && AllDigits(d)
    ensures ParseInt(d).Some? && ParseInt(d).value >= 0
    ensures ParseInt("+" + d) == ParseInt(d)
    ensures ParseInt("-" + d) == Some(-ParseInt(d).value)
  {
    assert ("+" + d)[1..] == d && ("-" + d)[1..] == d;
    assert d[0] != '+' && d[0] != '-';
  }

  /** `'%d' % n` for a natural number: canonical decimal digits. */
  function NatToString(n: nat): (s: string)
    ensures |s| > 0 && AllDigits(s) && DigitsValue(s) == n
    ensures |s| > 1 ==> s[0] != '0'
  {
    if n < 10 then [DigitChar(n)]
    else
      var p := NatToString(n / 10);
      var s := p + [DigitChar(n % 10)];
      assert s[..|s| - 1] == p;
      s
  }

  /** `'%d' % n`. */
  function IntToString(n: int): (s: string)
    ensures IsToken(s)
  {
    if n < 0 then "-" + NatToString(-n) else NatToString(n)
  }

  /** Formatting with `%d` and reading back with `int()` is the identity. */
  lemma {:induction false} IntRoundTrip(n: int)
    ensures ParseInt(IntToString(n)) == Some(n)
  {
    if n < 0 {
      assert IntToString(n)[1..] == NatToString(-n);
    } else {
      var s := NatToString(n);
      assert s[0] != '+' && s[0] != '-';
    }
  }

  // ----- decimals -----

  function Pow10(k: nat): (p: nat)
    ensures p > 0
  {
    if k == 0 then 1 else 10 * Pow10(k - 1)
  }

  /** Index of the first '.', or |s| if there is none. */
  function DotIndex(s: string): (k: nat)
    ensures k <= |s|
    ensures k < |s| ==> s[k] == '.'
    ensures forall i :: 0 <= i < k ==> s[i] != '.'
  {
    if |s| == 0 then 0
    else if s[0] == '.' then 0
    else 1 + DotIndex(s[1..])
  }

  /** Digits with at most one decimal point and at least one digit:
      "12", "12.5", "12." and ".5". */
  function ParseUnsignedDecimal(s: string): (r: Option<real>)
    ensures r.Some? ==> r.value >= 0.0
  {
    var k := DotIndex(s);
    var whole := s[..k];
    var frac := if k < |s| then s[k + 1..] else "";
    if AllDigits(whole) && AllDigits(frac) && |whole| + |frac| > 0 then
      Some(DigitsValue(whole) as real + DigitsValue(frac) as real / Pow10(|frac|) as real)
    else None
  }

  /** `float(token)` for plain decimal notation with an optional sign. */
  function ParseDecimal(s: string): (r: Option<real>)
    ensures r.Some? ==> |s| > 0
    ensures r.Some? && s[0] == '-' ==> r.value <= 0.0
    ensures r.Some? && s[0] != '-' ==> r.value >= 0.0
  {
    if |s| > 0 && (s[0] == '+' || s[0] == '-') then
      match ParseUnsignedDecimal(s[1..])
      case None => None
      case Some(v) => Some(if s[0] == '-' then -v else v)
    else ParseUnsignedDecimal(s)
  }

  lemma {:induction false} NoDotInDigits(s: string)
    requires AllDigits(s)
    ensures DotIndex(s) == |s|
  {
  }

  /** Every integer token is also a number token with the same value, as
      `float(s) == int(s)` in Python. */
  lemma {:induction false} IntTokensAreNumbers(s: string)
    requires ParseInt(s).Some?
    ensures ParseDecimal(s) == Some(ParseInt(s).value as real)
  {
    if |s| > 0 && (s[0] == '+' || s[0] == '-') {
      NoDotInDigits(s[1..]);
      assert s[1..][..|s| - 1] == s[1..];
    } else {
      NoDotInDigits(s);
      assert s[..|s|] == s;
    }
  }

  /** `'%d.0' % n` reads back as the number n. */
  lemma {:induction false} WholeDecimalRoundTrip(n: int)
    ensures ParseDecimal(IntToString(n) + ".0") == Some(n as real)
  {
    if n < 0 {
      NegativeWholeDecimal(n);
    } else {
      UnsignedWholeDecimal(n);
      UnsignedIsDecimal(NatToString(n) + ".0");
    }
  }

  lemma {:induction false} NegativeWholeDecimal(n: int)
    requires n < 0
    ensures ParseDecimal(IntToString(n) + ".0") == Some(n as real)
  {
    NegativeFormat(n);
    NegativeWhole(-n, IntToString(n) + ".0", n as real);
  }

  lemma {:induction false} NegativeFormat(n: int)
    requires n < 0
    ensures IntToString(n) + ".0" == "-" + (NatToString(-n) + ".0")
  {
  }

  lemma {:induction false} NegativeWhole(m: nat, s: string, w: real)
    requires s == "-" + (NatToString(m) + ".0") && w == -(m as real)
    ensures ParseDecimal(s) == Some(w)
  {
    UnsignedWholeDecimal(m);
    assert s[1..] == NatToString(m) + ".0";
  }

  lemma {:induction false} UnsignedIsDecimal(u: string)
    requires |u| > 0 && IsDigit(u[0])
    ensures ParseDecimal(u) == ParseUnsignedDecimal(u)
  {
  }

  lemma {:induction false} UnsignedWholeDecimal(m: nat)
    ensures ParseUnsignedDecimal(NatToString(m) + ".0") == Some(m as real)
  {
    var d := NatToString(m);
    var u := d + ".0";
    assert DotIndex(u) == |d| by {
      assert u == d + "." + "0";
      DotAfterDigits(d, "0");
    }
    assert u[..|d|] == d;
    assert u[|d| + 1..] == "0";
    assert DigitsValue("0") == 0 by {
      assert "0"[..0] == "";
    }
  }

  lemma {:induction false} DotAfterDigits(d: string, rest: string)
    requires AllDigits(d)
    ensures DotIndex(d + "." + rest) == |d|
    decreases |d|
  {
    if |d| > 0 {
      assert (d + "." + rest)[1..] == d[1..] + "." + rest;
      DotAfterDigits(d[1..], rest);
    }
  }
}
