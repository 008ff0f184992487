/** Bytes, byte strings and the order std::string puts on them. */
module Bytes {
  type byte = x: int | 0 <= x < 256
  type bytes = seq<byte>

  const TAB: byte := 0x09
  const LF: byte := 0x0A
  const CR: byte := 0x0D
  const SPACE: byte := 0x20
  const QUOTE: byte := 0x22
  const PLUS: byte := 0x2B
  const COMMA: byte := 0x2C
  const MINUS: byte := 0x2D
  const DOT: byte := 0x2E
  const SLASH: byte := 0x2F
  const ZERO: byte := 0x30
  const COLON: byte := 0x3A
  const UPPER_E: byte := 0x45
  const LBRACKET: byte := 0x5B
  const BACKSLASH: byte := 0x5C
  const RBRACKET: byte := 0x5D
  const LOWER_E: byte := 0x65
  const LOWER_F: byte := 0x66
  const LOWER_N: byte := 0x6E
  const LOWER_T: byte := 0x74
  const LOWER_U: byte := 0x75
  const LBRACE: byte := 0x7B
  const RBRACE: byte := 0x7D
  const ASTERISK: byte := 0x2A

  const TRUE_TEXT: bytes := [0x74, 0x72, 0x75, 0x65]
  const FALSE_TEXT: bytes := [0x66, 0x61, 0x6C, 0x73, 0x65]
  const NULL_TEXT: bytes := [0x6E, 0x75, 0x6C, 0x6C]

  /** A text of the source. */
  function Ascii(s: string): (r: bytes)
    requires forall i :: 0 <= i < |s| ==> s[i] < '\U{80}'
    ensures |r| == |s| && forall i :: 0 <= i < |r| ==> r[i] == s[i] as int
  {
    seq(|s|, i requires 0 <= i < |s| => s[i] as int)
  }

  /** `std::isprint` in the C locale. */
  predicate IsPrint(c: byte) { 0x20 <= c <= 0x7E }

  predicate IsDigit(c: byte) { 0x30 <= c <= 0x39 }

  predicate IsSpace(c: byte) { c == SPACE || c == TAB || c == CR || c == LF }

  predicate IsAlpha(c: byte) { 0x41 <= c <= 0x5A || 0x61 <= c <= 0x7A }

  predicate IsAlnum(c: byte) { IsAlpha(c) || IsDigit(c) }

  datatype Option<+T> = None | Some(value: T)

  /** The sign of `std::string::compare`: lexicographic on unsigned bytes. */
  function CompareBytes(a: bytes, b: bytes): (r: int)
    ensures r == -1 || r == 0 || r == 1
  {
    if a == [] then (if b == [] then 0 else -1)
    else if b == [] then 1
    else if a[0] < b[0] then -1
    else if a[0] > b[0] then 1
    else CompareBytes(a[1..], b[1..])
  }

  /** Zero means equal, and swapping the arguments flips the sign. */
  lemma {:induction false} CompareBytesSign(a: bytes, b: bytes)
    ensures CompareBytes(a, b) == 0 <==> a == b
    ensures CompareBytes(b, a) == -CompareBytes(a, b)
  {
    if a != [] && b != [] {
      CompareBytesSign(a[1..], b[1..]);
      assert a == [a[0]] + a[1..] && b == [b[0]] + b[1..];
    }
  }

  lemma {:induction false} CompareBytesTransitive(a: bytes, b: bytes, c: bytes)
    requires CompareBytes(a, b) <= 0 && CompareBytes(b, c) <= 0
    ensures CompareBytes(a, c) <= 0
    ensures CompareBytes(a, b) < 0 || CompareBytes(b, c) < 0 ==> CompareBytes(a, c) < 0
  {
    if a != [] && b != [] && c != [] && a[0] == b[0] == c[0] {
      CompareBytesTransitive(a[1..], b[1..], c[1..]);
    }
  }

  /** The first byte that differs decides, as a number from 0 to 255; a proper prefix is less. */
  lemma {:induction false} CompareBytesAt(a: bytes, b: bytes, n: nat)
    requires n <= |a| && n <= |b| && a[..n] == b[..n]
    ensures n < |a| && n < |b| && a[n] != b[n] ==> CompareBytes(a, b) == if a[n] < b[n] then -1 else 1
    ensures n == |a| == |b| ==> CompareBytes(a, b) == 0
    ensures n == |a| < |b| ==> CompareBytes(a, b) == -1
    ensures n == |b| < |a| ==> CompareBytes(a, b) == 1
  {
    if n > 0 {
      assert a[0] == a[..n][0] == b[..n][0] == b[0];
      assert a[1..][..n - 1] == a[..n][1..] == b[..n][1..] == b[1..][..n - 1];
      CompareBytesAt(a[1..], b[1..], n - 1);
    }
  }

  /** The bytes that have names, as characters. */
  lemma Alphabet()
    ensures [TAB, LF, CR, SPACE] == Ascii("\t\n\r ") && [QUOTE, BACKSLASH, SLASH, ASTERISK] == Ascii("\"\\/*")
    ensures [PLUS, MINUS, DOT, ZERO] == Ascii("+-.0") && [LOWER_E, UPPER_E] == Ascii("eE")
    ensures [COMMA, COLON, LBRACKET, RBRACKET, LBRACE, RBRACE] == Ascii(",:[]{}")
    ensures [LOWER_T, LOWER_F, LOWER_N, LOWER_U] == Ascii("tfnu")
    ensures TRUE_TEXT == Ascii("true") && FALSE_TEXT == Ascii("false") && NULL_TEXT == Ascii("null")
  {
  }

  lemma Classes(c: byte)
    ensures IsPrint(c) <==> ' ' as int <= c <= '~' as int
    ensures IsDigit(c) <==> '0' as int <= c <= '9' as int
    ensures IsSpace(c) <==> c in Ascii(" \t\r\n")
    ensures IsAlpha(c) <==> 'A' as int <= c <= 'Z' as int || 'a' as int <= c <= 'z' as int
    ensures IsAlnum(c) <==> IsAlpha(c) || IsDigit(c)
  {
    var s := Ascii(" \t\r\n");
    assert s == [0x20, 0x09, 0x0D, 0x0A];
  }
}
