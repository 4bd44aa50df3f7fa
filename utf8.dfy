/** UTF-8 as far as the header check needs it. The header line is read with
    `BufRead::read_line`, which insists on valid UTF-8, and then compared after
    `trim_end`; on bytes this means: the marker followed by the UTF-8 encoding
    of a run of whitespace characters. */
module Utf8 {
  import opened Bytes
  import opened Text

  /** The UTF-8 encoding of one character. */
  function Encode(c: char): (r: seq<byte>)
    ensures 1 <= |r| <= 4
    ensures (c as int < 0x80) <==> |r| == 1
  {
    var n := c as int;
    if n < 0x80 then [n as byte]
    else if n < 0x800 then [(0xC0 + n / 0x40) as byte, (0x80 + n % 0x40) as byte]
    else if n < 0x1_0000 then
      [(0xE0 + n / 0x1000) as byte, (0x80 + n / 0x40 % 0x40) as byte, (0x80 + n % 0x40) as byte]
    else
      [(0xF0 + n / 0x4_0000) as byte, (0x80 + n / 0x1000 % 0x40) as byte,
       (0x80 + n / 0x40 % 0x40) as byte, (0x80 + n % 0x40) as byte]
  }

  function EncodeString(s: seq<char>): (r: seq<byte>)
    ensures |r| >= |s|
  {
    if s == [] then [] else Encode(s[0]) + EncodeString(s[1..])
  }

  predicate IsAsciiWhitespace(b: byte)
  {
    9 <= b <= 13 || b == 32
  }

  /** Three-byte encodings of whitespace: U+1680, U+2000..U+200A, U+2028,
      U+2029, U+202F, U+205F and U+3000. */
  predicate IsWhitespace3(a: byte, b: byte, c: byte)
  {
    (a == 0xE1 && b == 0x9A && c == 0x80)
    || (a == 0xE2 && b == 0x80 && (0x80 <= c <= 0x8A || c == 0xA8 || c == 0xA9 || c == 0xAF))
    || (a == 0xE2 && b == 0x81 && c == 0x9F)
    || (a == 0xE3 && b == 0x80 && c == 0x80)
  }

  /** w is valid UTF-8 and every character it encodes is whitespace. */
  predicate WhitespaceBytes(w: seq<byte>): (r: bool)
    ensures r ==> forall k | 0 <= k < |w| && w[k] < 0x80 :: IsAsciiWhitespace(w[k])
    decreases |w|
  {
    if w == [] then true
    else if IsAsciiWhitespace(w[0]) then WhitespaceBytes(w[1..])
    else if w[0] == 0xC2 then |w| >= 2 && (w[1] == 0x85 || w[1] == 0xA0) && WhitespaceBytes(w[2..])
    else |w| >= 3 && IsWhitespace3(w[0], w[1], w[2]) && WhitespaceBytes(w[3..])
  }

  /** The character a three-byte whitespace encoding stands for. */
  function Char3(a: byte, b: byte, c: byte): (r: char)
    requires IsWhitespace3(a, b, c)
    ensures IsWhitespace(r) && Encode(r) == [a, b, c]
  {
    if a == 0xE1 then '\U{1680}'
    else if a == 0xE3 then '\U{3000}'
    else if b == 0x81 then '\U{205F}'
    else (0x2000 + (c as int - 0x80)) as char
  }

  /** The first character of a non-empty whitespace encoding. */
  function FirstWhitespace(w: seq<byte>): (c: char)
    requires w != [] && WhitespaceBytes(w)
    ensures IsWhitespace(c) && |Encode(c)| <= |w| && Encode(c) == w[..|Encode(c)|]
    ensures WhitespaceBytes(w[|Encode(c)|..])
  {
    if IsAsciiWhitespace(w[0]) then w[0] as int as char
    else if w[0] == 0xC2 then
      var c := w[1] as int as char;
      assert Encode(c) == w[..2];
      c
    else
      var c := Char3(w[0], w[1], w[2]);
      assert Encode(c) == w[..3];
      c
  }

  lemma Cons(c: char, s: seq<char>)
    requires IsWhitespace(c) && AllWhitespace(s)
    ensures AllWhitespace([c] + s) && EncodeString([c] + s) == Encode(c) + EncodeString(s)
  {
    assert ([c] + s)[1..] == s;
  }

  /** Reads the whitespace characters back out of their encoding. */
  function DecodeWhitespace(w: seq<byte>): (s: seq<char>)
    requires WhitespaceBytes(w)
    ensures AllWhitespace(s) && EncodeString(s) == w
    decreases |w|
  {
    if w == [] then []
    else
      var c := FirstWhitespace(w);
      var rest := DecodeWhitespace(w[|Encode(c)|..]);
      Cons(c, rest);
      assert w == w[..|Encode(c)|] + w[|Encode(c)|..];
      [c] + rest
  }

  lemma {:induction false} WhitespaceEncodes(c: char, w: seq<byte>)
    requires IsWhitespace(c) && WhitespaceBytes(w)
    ensures WhitespaceBytes(Encode(c) + w)
  {
    var e := Encode(c) + w;
    assert e[|Encode(c)|..] == w;
  }

  /** Soundness: the encoding of any run of whitespace characters is accepted. */
  lemma {:induction false} WhitespaceBytesOfString(s: seq<char>)
    requires AllWhitespace(s)
    ensures WhitespaceBytes(EncodeString(s))
  {
    if s != [] {
      assert AllWhitespace(s[1..]) by {
        forall k | 0 <= k < |s| - 1 ensures IsWhitespace(s[1..][k]) {
          assert s[1..][k] == s[k + 1];
        }
      }
      WhitespaceBytesOfString(s[1..]);
      WhitespaceEncodes(s[0], EncodeString(s[1..]));
    }
  }

  /** WhitespaceBytes accepts exactly the UTF-8 encodings of whitespace runs. */
  lemma WhitespaceBytesIff(w: seq<byte>)
    ensures WhitespaceBytes(w) <==> exists s :: AllWhitespace(s) && EncodeString(s) == w
  {
    if WhitespaceBytes(w) {
      var s := DecodeWhitespace(w);
      assert AllWhitespace(s) && EncodeString(s) == w;
    }
    forall s | AllWhitespace(s) && EncodeString(s) == w ensures WhitespaceBytes(w) {
      WhitespaceBytesOfString(s);
    }
  }
}
