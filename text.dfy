/**
  Character classes, trimming, upper-casing and the integer and decimal parsers that the
  scripts borrow from Python (`str.strip`, `str.upper`, `int()`, `float()`).

  Approximations, all ASCII: whitespace is space, tab, line feed, vertical tab, form feed,
  carriage return and the separators 0x1C to 0x1F; letters and digits are `a`-`z`, `A`-`Z`,
  `0`-`9`.
*/
module Text {
  import opened Wrappers

  /** A non-empty text in front of another is its first character in front of the rest. */
  lemma {:induction false} SplitHead<T>(p: seq<T>, t: seq<T>)
    requires p != []
    ensures p == [p[0]] + p[1..]
    ensures p + t == [p[0]] + (p[1..] + t)
  {
  }

  /** Concatenation of three pieces is associative. */
  lemma {:induction false} AppendAssoc3<T>(a: seq<T>, b: seq<T>, c: seq<T>)
    ensures (a + b) + c == a + (b + c)
  {
  }

  /** Putting a character in front commutes with concatenation. */
  lemma {:induction false} ConsAppend<T>(c: T, x: seq<T>, y: seq<T>)
    ensures [c] + (x + y) == ([c] + x) + y
  {
  }

  /**
    The ASCII characters `str.isspace` accepts, which `strip()` and `split()` remove: space, tab,
    line feed, vertical tab, form feed, carriage return, and the separators 0x1C to 0x1F.
  */
  predicate IsSpace(c: char) {
    c == ' ' || '\t' <= c <= '\r' || '\U{001C}' <= c <= '\U{001F}'
  }

  predicate IsDigit(c: char) {
    '0' <= c <= '9'
  }

  /** Regular-expression `\w`: letter, digit or underscore. */
  predicate IsWordChar(c: char) {
    IsDigit(c) || 'a' <= c <= 'z' || 'A' <= c <= 'Z' || c == '_'
  }

  predicate AllSpace(s: string) {
    forall i :: 0 <= i < |s| ==> IsSpace(s[i])
  }

  predicate NoSpace(s: string) {
    forall i :: 0 <= i < |s| ==> !IsSpace(s[i])
  }

  predicate AllDigits(s: string) {
    forall i :: 0 <= i < |s| ==> IsDigit(s[i])
  }

  predicate AllWordChars(s: string) {
    forall i :: 0 <= i < |s| ==> IsWordChar(s[i])
  }

  // ---------------------------------------------------------------------------------------
  // Trimming (`str.strip()`)
  // ---------------------------------------------------------------------------------------

  /** Number of whitespace characters at the start of `s`. */
  function LeadingSpaces(s: string): (k: nat)
    ensures k <= |s|
    ensures forall i :: 0 <= i < k ==> IsSpace(s[i])
    ensures k < |s| ==> !IsSpace(s[k])
  {
    if s == [] || !IsSpace(s[0]) then 0
    else
      var k' := LeadingSpaces(s[1..]);
      assert forall i :: 1 <= i < 1 + k' ==> s[i] == s[1..][i - 1];
      1 + k'
  }

  /** Number of whitespace characters at the end of `s`. */
  function TrailingSpaces(s: string): (k: nat)
    ensures k <= |s|
    ensures forall i :: |s| - k <= i < |s| ==> IsSpace(s[i])
    ensures k < |s| ==> !IsSpace(s[|s| - 1 - k])
  {
    if s == [] || !IsSpace(s[|s| - 1]) then 0
    else
      var k' := TrailingSpaces(s[..|s| - 1]);
      assert forall i :: |s| - 1 - k' <= i < |s| - 1 ==> s[i] == s[..|s| - 1][i];
      1 + k'
  }

  function TrimStart(s: string): string {
    s[LeadingSpaces(s)..]
  }

  function TrimEnd(s: string): string {
    s[..|s| - TrailingSpaces(s)]
  }

  /** `str.strip()`: the text without its leading and trailing whitespace. */
  function Trim(s: string): (r: string)
    ensures |r| <= |s|
    ensures r == [] <==> AllSpace(s)
    ensures r == [] || (!IsSpace(r[0]) && !IsSpace(r[|r| - 1]))
  {
    var k := LeadingSpaces(s);
    var t := s[k..];
    var m := TrailingSpaces(t);
    if t == [] then
      assert forall i :: 0 <= i < |s| ==> IsSpace(s[i]);
      []
    else
      assert !IsSpace(t[0]);
      assert m < |t|;
      t[..|t| - m]
  }

  /**
    The result of `str.strip()` is the slice of `s` that begins at its first non-space
    character, with only whitespace after it.
  */
  lemma {:induction false} TrimSpec(s: string)
    ensures LeadingSpaces(s) + |Trim(s)| <= |s|
    ensures Trim(s) == s[LeadingSpaces(s)..LeadingSpaces(s) + |Trim(s)|]
    ensures forall i :: LeadingSpaces(s) + |Trim(s)| <= i < |s| ==> IsSpace(s[i])
  {
    var k := LeadingSpaces(s);
    var t := s[k..];
    var m := TrailingSpaces(t);
    if t != [] {
      assert !IsSpace(t[0]);
      assert m < |t|;
      assert forall i :: k + |t| - m <= i < |s| ==> s[i] == t[i - k];
    }
  }

  /** Digits carry no surrounding whitespace. */
  lemma {:induction false} TrimDigits(s: string)
    requires AllDigits(s)
    ensures Trim(s) == s
  {
    if s != [] {
      assert IsDigit(s[0]) && IsDigit(s[|s| - 1]);
    }
    TrimUnchanged(s);
  }

  /** Trimming a string that neither begins nor ends with whitespace changes nothing. */
  lemma {:induction false} TrimUnchanged(s: string)
    requires s == [] || (!IsSpace(s[0]) && !IsSpace(s[|s| - 1]))
    ensures Trim(s) == s
  {
    if s != [] {
      assert LeadingSpaces(s) == 0;
      assert TrailingSpaces(s) == 0;
    }
  }

  /** Whitespace after a text that neither begins nor ends with whitespace is trimmed away. */
  lemma {:induction false} TrimSpacesAfter(x: string, sp: string)
    requires x != [] && !IsSpace(x[0]) && !IsSpace(x[|x| - 1])
    requires AllSpace(sp)
    ensures Trim(x + sp) == x
  {
    var s := x + sp;
    var r := Trim(s);
    assert s[0] == x[0];
    assert LeadingSpaces(s) == 0;
    assert forall j :: |r| <= j < |s| ==> IsSpace(s[j]) by {
      assert forall j :: |r| <= j < |s| ==> s[j] == s[|r|..][j - |r|];
    }
    assert !IsSpace(s[|x| - 1]);
    assert |r| >= |x|;
    assert r == s[..|x|];
  }

  /** A text starting with a word keeps that word in front when trimmed. */
  lemma {:induction false} TrimAfterWord(v: string, y: string)
    requires |v| > 0 && NoSpace(v)
    ensures |Trim(v + y)| >= |v|
    ensures Trim(v + y) == v + Trim(v + y)[|v|..]
    ensures |Trim(v + y)| > |v| ==> Trim(v + y)[|v|] == y[0]
  {
    var s := v + y;
    var r := Trim(s);
    assert s[0] == v[0];
    assert LeadingSpaces(s) == 0;
    assert !IsSpace(s[|v| - 1]);
    assert forall j :: |r| <= j < |s| ==> IsSpace(s[j]) by {
      assert forall j :: |r| <= j < |s| ==> s[j] == s[|r|..][j - |r|];
    }
    assert |r| >= |v|;
    assert r[..|v|] == v;
    assert r == r[..|v|] + r[|v|..];
  }

  /** `str.strip()` is idempotent. */
  lemma {:induction false} TrimIdempotent(s: string)
    ensures Trim(Trim(s)) == Trim(s)
  {
    TrimUnchanged(Trim(s));
  }

  // ---------------------------------------------------------------------------------------
  // Upper-casing (`str.upper()`)
  // ---------------------------------------------------------------------------------------

  function UpperChar(c: char): char {
    if 'a' <= c <= 'z' then (c as int - 32) as char else c
  }

  function Upper(s: string): (r: string)
    ensures |r| == |s|
    ensures forall i :: 0 <= i < |s| ==> r[i] == UpperChar(s[i])
  {
    seq(|s|, i requires 0 <= i < |s| => UpperChar(s[i]))
  }

  /** A text of upper-case letters is its own upper-case form. */
  lemma {:induction false} UpperOfUpper(s: string)
    requires forall i :: 0 <= i < |s| ==> 'A' <= s[i] <= 'Z'
    ensures Upper(s) == s
  {
  }

  /** The two strings differ at most in the case of their ASCII letters. */
  predicate CaseEquiv(a: string, b: string) {
    |a| == |b| && forall i :: 0 <= i < |a| ==> UpperChar(a[i]) == UpperChar(b[i])
  }

  /** A character that is not a lower-case letter is the only one upper-casing to itself. */
  lemma {:induction false} UpperCharFixed(a: char, b: char)
    requires UpperChar(a) == UpperChar(b)
    requires !('a' <= a <= 'z') && !('A' <= a <= 'Z')
    ensures a == b
  {
  }

  /** Whitespace is the same in two strings that agree up to case. */
  lemma {:induction false} CaseEquivSpace(a: char, b: char)
    requires UpperChar(a) == UpperChar(b)
    ensures IsSpace(a) <==> IsSpace(b)
  {
    if IsSpace(a) { UpperCharFixed(a, b); }
    if IsSpace(b) { UpperCharFixed(b, a); }
  }

  lemma {:induction false} LeadingSpacesCaseEquiv(a: string, b: string)
    requires CaseEquiv(a, b)
    ensures LeadingSpaces(a) == LeadingSpaces(b)
    decreases |a|
  {
    if a != [] {
      CaseEquivSpace(a[0], b[0]);
      if IsSpace(a[0]) {
        LeadingSpacesCaseEquiv(a[1..], b[1..]);
      }
    }
  }

  lemma {:induction false} TrailingSpacesCaseEquiv(a: string, b: string)
    requires CaseEquiv(a, b)
    ensures TrailingSpaces(a) == TrailingSpaces(b)
    decreases |a|
  {
    if a != [] {
      CaseEquivSpace(a[|a| - 1], b[|b| - 1]);
      if IsSpace(a[|a| - 1]) {
        TrailingSpacesCaseEquiv(a[..|a| - 1], b[..|b| - 1]);
      }
    }
  }

  /** Trimming commutes with a change of letter case. */
  lemma {:induction false} TrimCaseEquiv(a: string, b: string)
    requires CaseEquiv(a, b)
    ensures CaseEquiv(Trim(a), Trim(b))
  {
    LeadingSpacesCaseEquiv(a, b);
    var k := LeadingSpaces(a);
    assert CaseEquiv(a[k..], b[k..]);
    TrailingSpacesCaseEquiv(a[k..], b[k..]);
  }

  // ---------------------------------------------------------------------------------------
  // Digits and decimal numbers
  // ---------------------------------------------------------------------------------------

  function DigitValue(c: char): nat
    requires IsDigit(c)
  {
    c as int - '0' as int
  }

  function DigitChar(d: nat): (c: char)
    requires d < 10
    ensures IsDigit(c) && DigitValue(c) == d
  {
    ('0' as int + d) as char
  }

  /** The value of a string of decimal digits, most significant first. */
  function DigitsValue(s: string): nat
    requires AllDigits(s)
  {
    if s == [] then 0
    else DigitsValue(s[..|s| - 1]) * 10 + DigitValue(s[|s| - 1])
  }

  function Pow10(k: nat): (p: nat)
    ensures p >= 1
  {
    if k == 0 then 1 else 10 * Pow10(k - 1)
  }

  /** Decimal digits of `n`, without leading zeros (Python `str` of a non-negative int). */
  function NatToString(n: nat): (s: string)
    ensures |s| > 0 && AllDigits(s)
    ensures DigitsValue(s) == n
  {
    if n < 10 then [DigitChar(n)]
    else
      var s := NatToString(n / 10) + [DigitChar(n % 10)];
      assert s[..|s| - 1] == NatToString(n / 10);
      s
  }

  /** The last digit of a number of two or more digits. */
  lemma {:induction false} NatToStringStep(n: nat)
    requires n >= 10
    ensures NatToString(n) == NatToString(n / 10) + [DigitChar(n % 10)]
  {
  }

  /** The digits of the year 2024. */
  lemma {:induction false} NatToString2024(s: string)
    requires s == "2024"
    ensures NatToString(2024) == s
  {
    NatToStringStep(2024);
    NatToStringStep(202);
    NatToStringStep(20);
    assert NatToString(2) == "2";
    assert DigitChar(0) == '0' && DigitChar(2) == '2' && DigitChar(4) == '4';
    assert "2" + ['0'] + ['2'] + ['4'] == s;
  }

  /** Python `str` of an int. */
  function IntToString(x: int): string {
    if x < 0 then "-" + NatToString(-x) else NatToString(x)
  }

  /** Splits an optional leading `+` or `-` off a number's text. */
  function SplitSign(t: string): (bool, string) {
    if |t| > 0 && (t[0] == '-' || t[0] == '+') then (t[0] == '-', t[1..]) else (false, t)
  }

  /**
    Python `int(s)` on text: surrounding whitespace, an optional sign, then one or more
    decimal digits; anything else is a ValueError, modelled as None.
  */
  function ParseInt(s: string): (r: Option<int>)
    ensures r.Some? ==> |Trim(s)| > 0
  {
    var (negative, digits) := SplitSign(Trim(s));
    if |digits| > 0 && AllDigits(digits) then
      Some(if negative then -(DigitsValue(digits) as int) else DigitsValue(digits))
    else None
  }

  /** Index of the first `.` in `s`, or `|s|` when there is none. */
  function DotIndex(s: string): (k: nat)
    ensures k <= |s|
    ensures k < |s| ==> s[k] == '.'
    ensures forall i :: 0 <= i < k ==> s[i] != '.'
  {
    if s == [] then 0
    else if s[0] == '.' then 0
    else 1 + DotIndex(s[1..])
  }

  /**
    Python `float(s)` on fixed-point text: surrounding whitespace, an optional sign, digits
    with at most one `.`, and at least one digit.
  */
  function ParseDecimal(s: string): (r: Option<real>)
    ensures r.Some? ==> |Trim(s)| > 0
  {
    var (negative, body) := SplitSign(Trim(s));
    var k := DotIndex(body);
    var whole := body[..k];
    var fraction := if k < |body| then body[k + 1..] else [];
    if AllDigits(whole) && AllDigits(fraction) && |whole| + |fraction| > 0 then
      var magnitude := DigitsValue(whole) as real
                       + DigitsValue(fraction) as real / Pow10(|fraction|) as real;
      Some(if negative then -magnitude else magnitude)
    else None
  }

  /** `int(str(x)) == x`. */
  lemma {:induction false} ParseIntRoundTrip(x: int)
    ensures ParseInt(IntToString(x)) == Some(x)
  {
    var s := IntToString(x);
    if x < 0 {
      var d := NatToString(-x);
      assert s[0] == '-' && s[1..] == d;
      assert !IsSpace(s[|s| - 1]) by { assert s[|s| - 1] == d[|d| - 1]; }
    }
    TrimUnchanged(s);
  }

  /** Every text `int()` accepts is accepted by `float()` with the same value. */
  lemma {:induction false} ParseDecimalExtendsParseInt(s: string)
    requires ParseInt(s).Some?
    ensures ParseDecimal(s) == Some(ParseInt(s).value as real)
  {
    var (negative, body) := SplitSign(Trim(s));
    assert forall i :: 0 <= i < |body| ==> body[i] != '.' by {
      assert AllDigits(body);
    }
    assert DotIndex(body) == |body|;
    assert body[..|body|] == body;
  }

  /** Digits, a point and digits, not both empty: the whole part plus the fraction's digits
      over the power of ten of their count. */
  lemma {:induction false} ParseDecimalFraction(d: string, f: string)
    requires AllDigits(d) && AllDigits(f) && |d| + |f| > 0
    ensures ParseDecimal(d + "." + f) ==
      Some(DigitsValue(d) as real + DigitsValue(f) as real / Pow10(|f|) as real)
  {
    PointTextPlain(d, f);
    ParseDecimalPlain(d + "." + f, |d|);
  }

  /** Digits, a point and digits are stripped and unsigned, with the point after the whole part. */
  lemma {:induction false} PointTextPlain(d: string, f: string)
    requires AllDigits(d) && AllDigits(f)
    ensures Trim(d + "." + f) == d + "." + f
    ensures SplitSign(d + "." + f) == (false, d + "." + f)
    ensures DotIndex(d + "." + f) == |d|
    ensures (d + "." + f)[..|d|] == d && (d + "." + f)[|d| + 1..] == f
  {
    var s := d + "." + f;
    assert s[|d|] == '.';
    assert !IsSpace(s[0]) && !IsSpace(s[|s| - 1]) by {
      if |d| > 0 { assert s[0] == d[0]; } else { assert s[0] == '.'; }
      if |f| > 0 { assert s[|s| - 1] == f[|f| - 1]; } else { assert s[|s| - 1] == '.'; }
    }
    TrimUnchanged(s);
    assert s[0] != '-' && s[0] != '+' by {
      if |d| > 0 { assert s[0] == d[0]; }
    }
    DotIndexAfterDigits(d, "." + f);
    assert s[..|d|] == d && s[|d| + 1..] == f;
  }

  /** `float()` on text that is already stripped, unsigned, and has its point at `k`. */
  lemma {:induction false} ParseDecimalPlain(s: string, k: nat)
    requires Trim(s) == s && SplitSign(s) == (false, s)
    requires k == DotIndex(s) && k < |s|
    requires AllDigits(s[..k]) && AllDigits(s[k + 1..]) && k + |s[k + 1..]| > 0
    ensures ParseDecimal(s) ==
      Some(DigitsValue(s[..k]) as real + DigitsValue(s[k + 1..]) as real / Pow10(|s[k + 1..]|) as real)
  {
  }

  /** The first point after a run of digits is the one that ends the run. */
  lemma {:induction false} DotIndexAfterDigits(d: string, t: string)
    requires AllDigits(d) && |t| > 0 && t[0] == '.'
    ensures DotIndex(d + t) == |d|
  {
    assert (d + t)[|d|] == '.';
    assert forall i :: 0 <= i < |d| ==> (d + t)[i] == d[i];
  }

  // ---------------------------------------------------------------------------------------
  // Runs of characters
  // ---------------------------------------------------------------------------------------

  /** Length of the run of `\w` characters at the start of `s`. */
  function LeadingWordChars(s: string): (k: nat)
    ensures k <= |s|
    ensures AllWordChars(s[..k])
    ensures k < |s| ==> !IsWordChar(s[k])
  {
    if s == [] || !IsWordChar(s[0]) then 0
    else
      var k' := LeadingWordChars(s[1..]);
      assert forall i :: 1 <= i < 1 + k' ==> s[i] == s[1..][i - 1];
      1 + k'
  }

  /** Length of the run of `\d` characters at the start of `s`. */
  function LeadingDigits(s: string): (k: nat)
    ensures k <= |s|
    ensures AllDigits(s[..k])
    ensures k < |s| ==> !IsDigit(s[k])
  {
    if s == [] || !IsDigit(s[0]) then 0
    else
      var k' := LeadingDigits(s[1..]);
      assert forall i :: 1 <= i < 1 + k' ==> s[i] == s[1..][i - 1];
      1 + k'
  }

  lemma {:induction false} LeadingWordCharsOf(w: string, rest: string)
    requires AllWordChars(w)
    requires rest == [] || !IsWordChar(rest[0])
    ensures LeadingWordChars(w + rest) == |w|
    decreases |w|
  {
    if w != [] {
      assert (w + rest)[1..] == w[1..] + rest;
      LeadingWordCharsOf(w[1..], rest);
    }
  }

  lemma {:induction false} LeadingDigitsOf(d: string, rest: string)
    requires AllDigits(d)
    requires rest == [] || !IsDigit(rest[0])
    ensures LeadingDigits(d + rest) == |d|
    decreases |d|
  {
    if d != [] {
      assert (d + rest)[1..] == d[1..] + rest;
      LeadingDigitsOf(d[1..], rest);
    }
  }
}
