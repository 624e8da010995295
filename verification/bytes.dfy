/** Bytes of C strings, and the character classes the JSON code tests for. */
module Bytes {
  newtype byte = x: int | 0 <= x < 0x100

  type bytes = seq<byte>

  type Int32 = i: int | -0x8000_0000 <= i < 0x8000_0000

  const NUL: byte := 0x00
  const BS: byte := 0x08
  const TAB: byte := 0x09
  const LF: byte := 0x0A
  const CR: byte := 0x0D
  const SPACE: byte := 0x20
  const DQUOTE: byte := 0x22
  const SQUOTE: byte := 0x27
  const STAR: byte := 0x2A
  const PLUS: byte := 0x2B
  const COMMA: byte := 0x2C
  const MINUS: byte := 0x2D
  const DOT: byte := 0x2E
  const SLASH: byte := 0x2F
  const DIGIT_0: byte := 0x30
  const DIGIT_9: byte := 0x39
  const COLON: byte := 0x3A
  const LBRACKET: byte := 0x5B
  const BACKSLASH: byte := 0x5C
  const RBRACKET: byte := 0x5D
  const LOWER_A: byte := 0x61
  const LOWER_B: byte := 0x62
  const LOWER_E: byte := 0x65
  const LOWER_F: byte := 0x66
  const LOWER_N: byte := 0x6E
  const LOWER_R: byte := 0x72
  const LOWER_T: byte := 0x74
  const LOWER_U: byte := 0x75
  const LBRACE: byte := 0x7B
  const RBRACE: byte := 0x7D

  const NULL_TEXT: bytes := [0x6E, 0x75, 0x6C, 0x6C]
  const TRUE_TEXT: bytes := [0x74, 0x72, 0x75, 0x65]
  const FALSE_TEXT: bytes := [0x66, 0x61, 0x6C, 0x73, 0x65]

  // A text given by its characters
  function Ascii(text: string): (r: bytes)
    ensures |r| == |text| && forall i :: 0 <= i < |r| ==> r[i] as int == text[i] as int % 0x80
  {
    seq(|text|, i requires 0 <= i < |text| => (text[i] as int % 0x80) as byte)
  }

  lemma Characters()
    ensures [SPACE, DQUOTE, SQUOTE, STAR, PLUS, COMMA, MINUS, DOT, SLASH, DIGIT_0, DIGIT_9, COLON]
         == Ascii(" \"'*+,-./09:")
    ensures [LBRACKET, BACKSLASH, RBRACKET, LBRACE, RBRACE] == Ascii("[\\]{}")
    ensures [LOWER_A, LOWER_B, LOWER_E, LOWER_F, LOWER_N, LOWER_R, LOWER_T, LOWER_U] == Ascii("abefnrtu")
    ensures [NUL, TAB, LF, CR] == Ascii("\0\t\n\r") && BS == 8
    ensures NULL_TEXT == Ascii("null") && TRUE_TEXT == Ascii("true") && FALSE_TEXT == Ascii("false")
  {
  }

  // The classes of characters by their members
  lemma Classes(c: byte)
    ensures IsSpace(c) <==> c in Ascii(" \t\n\r") || c == 0x0B || c == 0x0C
    ensures IsDigit(c) <==> c in Ascii("0123456789")
    ensures IsQuote(c) <==> c in Ascii("\"'")
    ensures IsNumberChar(c) <==> c in Ascii("0123456789.+-e")
    ensures IsHexChar(c) <==> c in Ascii("0123456789abcdef")
  {
    assert Ascii(" \t\n\r") == [0x20, 0x09, 0x0A, 0x0D];
    assert Ascii("0123456789") == [0x30, 0x31, 0x32, 0x33, 0x34, 0x35, 0x36, 0x37, 0x38, 0x39];
    assert Ascii("\"'") == [0x22, 0x27];
    var digits: bytes := [0x30, 0x31, 0x32, 0x33, 0x34, 0x35, 0x36, 0x37, 0x38, 0x39];
    assert Ascii("0123456789.+-e") == digits + [0x2E, 0x2B, 0x2D, 0x65];
    assert Ascii("0123456789abcdef") == digits + [0x61, 0x62, 0x63, 0x64, 0x65, 0x66];
  }

  function Max(a: int, b: int): int {
    if a > b then a else b
  }

  // isspace in the C locale
  predicate IsSpace(c: byte) {
    0x09 <= c <= 0x0D || c == SPACE
  }

  predicate IsDigit(c: byte) {
    DIGIT_0 <= c <= DIGIT_9
  }

  predicate IsQuote(c: byte) {
    c == DQUOTE || c == SQUOTE
  }

  function Lower(c: byte): byte {
    if 0x41 <= c <= 0x5A then c + 0x20 else c
  }

  // json_number_chars
  predicate IsNumberChar(c: byte) {
    IsDigit(c) || c == DOT || c == PLUS || c == MINUS || c == LOWER_E
  }

  // json_hex_chars: lower case only
  predicate IsHexChar(c: byte) {
    IsDigit(c) || LOWER_A <= c <= LOWER_F
  }

  function HexDigit(x: byte): (d: int)
    requires IsHexChar(x)
    ensures 0 <= d < 16
  {
    if x <= DIGIT_9 then (x - DIGIT_0) as int else x as int % 8 + 9
  }

  // The digit character for d in json_hex_chars
  function HexChar(d: int): (x: byte)
    requires 0 <= d < 16
    ensures IsHexChar(x) && HexDigit(x) == d
  {
    if d < 10 then (0x30 + d) as byte else (0x57 + d) as byte
  }

  lemma HexChars(d: int)
    requires 0 <= d < 16
    ensures HexChar(d) == Ascii("0123456789abcdef")[d] && HexDigit(Ascii("0123456789abcdef")[d]) == d
  {
    var digits: bytes := [0x30, 0x31, 0x32, 0x33, 0x34, 0x35, 0x36, 0x37, 0x38, 0x39];
    assert Ascii("0123456789abcdef") == digits + [0x61, 0x62, 0x63, 0x64, 0x65, 0x66];
  }

  // The C string that starts at s[0]: what strdup copies
  function CString(s: bytes): (r: bytes)
    ensures NUL !in r && r <= s && (|r| < |s| ==> s[|r|] == NUL)
  {
    if s == [] || s[0] == NUL then [] else [s[0]] + CString(s[1..])
  }

  lemma {:induction false} CStringOfNulFree(s: bytes)
    requires NUL !in s
    ensures CString(s) == s
  {
    if s != [] {
      CStringOfNulFree(s[1..]);
    }
  }
}
