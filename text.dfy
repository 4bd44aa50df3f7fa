/** The pieces of Rust's `str`/`char` behaviour the core relies on:
    `char::is_whitespace`, `str::trim`/`trim_start`/`trim_end`, and the
    `{}` display of integers. */
module Text {

  /** Rust's `char::is_whitespace`: the Unicode White_Space property. */
  predicate IsWhitespace(c: char)
  {
    ('\t' <= c <= '\r') || c == ' ' || c == '\U{85}' || c == '\U{A0}' || c == '\U{1680}'
    || ('\U{2000}' <= c <= '\U{200A}') || c == '\U{2028}' || c == '\U{2029}'
    || c == '\U{202F}' || c == '\U{205F}' || c == '\U{3000}'
  }

  /** The 25 code points of the White_Space property, one by one. */
  const WhiteSpaceTable: set<char> := {
    '\t', '\n', '\U{B}', '\U{C}', '\r', ' ', '\U{85}', '\U{A0}', '\U{1680}',
    '\U{2000}', '\U{2001}', '\U{2002}', '\U{2003}', '\U{2004}', '\U{2005}',
    '\U{2006}', '\U{2007}', '\U{2008}', '\U{2009}', '\U{200A}',
    '\U{2028}', '\U{2029}', '\U{202F}', '\U{205F}', '\U{3000}'
  }

  /** The ranges of IsWhitespace cover exactly the code points of the table. */
  lemma WhitespaceTable(c: char)
    ensures IsWhitespace(c) <==> c in WhiteSpaceTable
  {
  }

  predicate AllWhitespace(s: seq<char>)
  {
    forall k | 0 <= k < |s| :: IsWhitespace(s[k])
  }

  /** Length of the run of whitespace that starts s. */
  function LeadingWhitespace(s: seq<char>): (n: nat)
    ensures n <= |s| && AllWhitespace(s[..n])
    ensures n < |s| ==> !IsWhitespace(s[n])
  {
    if s == [] || !IsWhitespace(s[0]) then 0
    else
      var n := LeadingWhitespace(s[1..]);
      assert s[..n + 1] == [s[0]] + s[1..][..n];
      n + 1
  }

  /** Length of the run of whitespace that ends s. */
  function TrailingWhitespace(s: seq<char>): (n: nat)
    ensures n <= |s| && AllWhitespace(s[|s| - n..])
    ensures n < |s| ==> !IsWhitespace(s[|s| - n - 1])
  {
    if s == [] || !IsWhitespace(s[|s| - 1]) then 0
    else
      var n := TrailingWhitespace(s[..|s| - 1]);
      TrailingStep(s, n);
      n + 1
  }

  lemma TrailingStep(s: seq<char>, n: nat)
    requires s != [] && IsWhitespace(s[|s| - 1]) && n <= |s| - 1
    requires AllWhitespace(s[..|s| - 1][|s| - 1 - n..])
    requires n < |s| - 1 ==> !IsWhitespace(s[..|s| - 1][|s| - 1 - n - 1])
    ensures AllWhitespace(s[|s| - (n + 1)..])
    ensures n + 1 < |s| ==> !IsWhitespace(s[|s| - (n + 1) - 1])
  {
    var t := s[..|s| - 1];
    assert s[|s| - (n + 1)..] == t[|t| - n..] + [s[|s| - 1]];
    if n + 1 < |s| {
      assert s[|s| - (n + 1) - 1] == t[|t| - n - 1];
    }
  }

  /** `str::trim`: the text between the leading and the trailing whitespace
      runs. It is empty exactly when the input is all whitespace. */
  function Trim(s: seq<char>): (r: seq<char>)
    ensures var i := LeadingWhitespace(s);
      i + |r| <= |s| && r == s[i..i + |r|] && AllWhitespace(s[i + |r|..])
    ensures r == [] || (!IsWhitespace(r[0]) && !IsWhitespace(r[|r| - 1]))
    ensures r == [] <==> AllWhitespace(s)
  {
    var i := LeadingWhitespace(s);
    var t := s[i..];
    var n := TrailingWhitespace(t);
    TrimPlace(s, i, n);
    TrimEnds(s, i, n);
    TrimEmpty(s, i, n);
    t[..|t| - n]
  }

  lemma TrimPlace(s: seq<char>, i: nat, n: nat)
    requires i <= |s| && n <= |s| - i && AllWhitespace(s[i..][|s| - i - n..])
    ensures var r := s[i..][..|s| - i - n];
      i + |r| <= |s| && r == s[i..i + |r|] && AllWhitespace(s[i + |r|..])
  {
    assert s[i + (|s| - i - n)..] == s[i..][|s| - i - n..];
  }

  lemma TrimEnds(s: seq<char>, i: nat, n: nat)
    requires i <= |s| && n <= |s| - i
    requires i < |s| ==> !IsWhitespace(s[i])
    requires n < |s| - i ==> !IsWhitespace(s[i..][|s| - i - n - 1])
    ensures var r := s[i..][..|s| - i - n];
      r == [] || (!IsWhitespace(r[0]) && !IsWhitespace(r[|r| - 1]))
  {
  }

  lemma TrimEmpty(s: seq<char>, i: nat, n: nat)
    requires i <= |s| && n <= |s| - i && AllWhitespace(s[..i])
    requires AllWhitespace(s[i..][|s| - i - n..])
    requires i < |s| ==> !IsWhitespace(s[i])
    ensures s[i..][..|s| - i - n] == [] <==> AllWhitespace(s)
  {
    var t := s[i..];
    if t[..|t| - n] == [] {
      assert t[|t| - n..] == t;
      assert s == s[..i] + t;
    }
  }

  lemma TrimOfTrimmed(s: seq<char>)
    requires s == [] || (!IsWhitespace(s[0]) && !IsWhitespace(s[|s| - 1]))
    ensures Trim(s) == s
  {
  }

  // Decimal display of integers, as `format!("{}", n)` writes them.

  function DigitChar(d: nat): (c: char)
    requires d < 10
    ensures '0' <= c <= '9' && c as int - '0' as int == d
  {
    ('0' as int + d) as char
  }

  predicate IsDigits(s: seq<char>)
  {
    forall k | 0 <= k < |s| :: '0' <= s[k] <= '9'
  }

  /** The decimal digits of n, most significant first, without leading zeros. */
  function Digits(n: nat): (r: seq<char>)
    ensures r != [] && IsDigits(r)
    ensures r[0] == '0' ==> n == 0
  {
    if n < 10 then [DigitChar(n)] else Digits(n / 10) + [DigitChar(n % 10)]
  }

  /** `{}` on a signed integer: a minus sign for negative values. */
  function Decimal(n: int): (r: seq<char>)
    ensures r != [] && (r[0] == '-' <==> n < 0)
    ensures IsDigits(if n < 0 then r[1..] else r)
    ensures var d := if n < 0 then r[1..] else r; d != [] && (d[0] == '0' ==> n == 0)
  {
    if n < 0 then
      var d := Digits(-n);
      assert (['-'] + d)[1..] == d;
      ['-'] + d
    else Digits(n)
  }

  /** The value of a run of decimal digits. */
  function DigitsValue(s: seq<char>): nat
    requires IsDigits(s)
  {
    if s == [] then 0 else DigitsValue(s[..|s| - 1]) * 10 + (s[|s| - 1] as int - '0' as int)
  }

  /** Reads back a decimal number written by Decimal. */
  function ParseDecimal(s: seq<char>): int
    requires IsDigits(if s != [] && s[0] == '-' then s[1..] else s)
  {
    if s != [] && s[0] == '-' then -(DigitsValue(s[1..]) as int) else DigitsValue(s)
  }

  lemma {:induction false} DigitsRoundTrip(n: nat)
    ensures DigitsValue(Digits(n)) == n
  {
    if n >= 10 {
      var d := Digits(n);
      assert d[..|d| - 1] == Digits(n / 10);
      DigitsRoundTrip(n / 10);
    }
  }

  /** Every integer is read back from its decimal display. */
  lemma DecimalRoundTrip(n: int)
    ensures ParseDecimal(Decimal(n)) == n
  {
    if n < 0 {
      assert Decimal(n)[1..] == Digits(-n);
      DigitsRoundTrip(-n);
    } else {
      DigitsRoundTrip(n);
    }
  }

  /** Distinct integers are displayed differently. */
  lemma DecimalInjective(m: int, n: int)
    requires Decimal(m) == Decimal(n)
    ensures m == n
  {
    DecimalRoundTrip(m);
    DecimalRoundTrip(n);
  }
}
