/** Escaping a byte string into a JSON string, and back (`string_encode`, `string_decode`). */
module StringCodec {
  import opened Bytes
  import opened Utf8

  /** `parse_options::encoding`. */
  datatype Encoding = Utf8 | Utf8Strict | Cesu8

  /** `find_encoding`: the letter that escapes a byte. */
  function EscapeLetter(c: byte): Option<byte> {
    if c == 0x08 then Some(0x62)
    else if c == 0x0C then Some(0x66)
    else if c == LF then Some(0x6E)
    else if c == CR then Some(0x72)
    else if c == TAB then Some(0x74)
    else if c == BACKSLASH || c == SLASH || c == QUOTE then Some(c)
    else None
  }

  /** `find_decoding`: the byte that an escape letter stands for. */
  function UnescapeLetter(c: byte): Option<byte> {
    if c == 0x62 then Some(0x08)
    else if c == 0x66 then Some(0x0C)
    else if c == 0x6E then Some(LF)
    else if c == 0x72 then Some(CR)
    else if c == 0x74 then Some(TAB)
    else if c == BACKSLASH || c == SLASH || c == QUOTE then Some(c)
    else None
  }

  type hex16 = x: int | 0 <= x < 0x1_0000

  function HexDigit(d: nat): byte
    requires d < 16
  {
    if d < 10 then ZERO + d else 0x61 + (d - 10)
  }

  function HexValue(c: byte): (r: Option<nat>)
    ensures r.Some? ==> r.value < 16
  {
    if IsDigit(c) then Some(c - ZERO)
    else if 0x61 <= c <= 0x66 then Some(c - 0x61 + 10)
    else if 0x41 <= c <= 0x46 then Some(c - 0x41 + 10)
    else None
  }

  /** The four digits that `to_hex` writes. */
  function Hex4(code: hex16): bytes {
    [HexDigit(code / 4096), HexDigit((code / 256) % 16), HexDigit((code / 16) % 16), HexDigit(code % 16)]
  }

  /** The number that `from_hex` reads from the first four bytes; None for a byte that is not a digit. */
  function FromHex4(s: bytes): (r: Option<nat>)
    requires |s| >= 4
    ensures r.Some? ==> r.value < 0x1_0000
  {
    var a, b, c, d := HexValue(s[0]), HexValue(s[1]), HexValue(s[2]), HexValue(s[3]);
    if a.None? || b.None? || c.None? || d.None? then None
    else Some(a.value * 4096 + b.value * 256 + c.value * 16 + d.value)
  }

  /** `x | 0xd800` on sixteen bits: bits 15, 14, 12 and 11 become one, the others stay. */
  function WithHighMark(x: hex16): hex16 { 0xD800 + (x / 8192) % 2 * 8192 + x % 2048 }

  lemma HighMarkBits(x: bv16)
    ensures x | 0xD800 == 0xD800 + (x / 8192) % 2 * 8192 + x % 2048
  {
  }

  predicate IsSurrogate(code: nat) { 0xD800 <= code <= 0xDFFF }

  /** `utf16_create_surrogates`, with its truncation to sixteen bits. */
  function Surrogates(code: nat): (r: (hex16, hex16))
    requires code >= 0x1_0000
  {
    (WithHighMark(((code - 0x1_0000) / 1024) % 0x1_0000), 0xDC00 + (code - 0x1_0000) % 1024)
  }

  /** `utf16_combine_surrogates`. */
  function Combine(high: nat, low: nat): (r: Option<nat>)
    ensures r.Some? ==> 0x1_0000 <= r.value <= 0x10FFFF
  {
    if 0xD800 <= high < 0xDC00 && 0xDC00 <= low < 0xE000 then
      Some(0x1_0000 + (high - 0xD800) * 1024 + (low - 0xDC00))
    else None
  }

  function UnicodeEscape(code: hex16): bytes { [BACKSLASH, LOWER_U] + Hex4(code) }

  /** What `string_encode` writes for one unit whose first byte is `lead`. */
  function UnitText(lead: byte, code: nat): bytes {
    match EscapeLetter(lead)
    case Some(letter) => [BACKSLASH, letter]
    case None =>
      if IsPrint(lead) then [lead]
      else if code < 0x1_0000 then UnicodeEscape(code)
      else UnicodeEscape(Surrogates(code).0) + UnicodeEscape(Surrogates(code).1)
  }

  /** What `string_encode` writes under `ensure_ascii`. */
  function Encode(s: bytes): bytes {
    if s == [] then [] else UnitText(s[0], FirstUnit(s).code) + Encode(s[FirstUnit(s).length..])
  }

  function Prepend(p: bytes, r: Option<bytes>): Option<bytes> {
    match r
    case Some(s) => Some(p + s)
    case None => None
  }

  /** An escape sequence: its length and the bytes it stands for. */
  datatype Escape = Escape(length: nat, text: bytes)

  function Unescape(encoding: Encoding, s: bytes): (r: Option<Escape>)
    requires s != [] && s[0] == BACKSLASH
    ensures r.Some? ==> 2 <= r.value.length <= |s|
  {
    if |s| < 2 then None
    else if UnescapeLetter(s[1]).Some? then Some(Escape(2, [UnescapeLetter(s[1]).value]))
    else if s[1] != LOWER_U || |s| < 6 then None
    else
      match FromHex4(s[2..])
      case None => None
      case Some(high) =>
        if encoding == Cesu8 || !IsSurrogate(high) then Some(Escape(6, Utf8Of(high)))
        else if |s| < 12 || s[6] != BACKSLASH || s[7] != LOWER_U then None
        else
          match FromHex4(s[8..])
          case None => None
          case Some(low) =>
            match Combine(high, low)
            case None => None
            case Some(code) => Some(Escape(12, Utf8Of(code)))
  }

  /** How many continuation bytes are due after an unescaped byte; None where the decoder rejects the byte. */
  function Accept(encoding: Encoding, c: byte, pending: nat): Option<nat> {
    if pending > 0 then
      if IsContinuation(c) then Some(pending - 1) else None
    else if LeadLength(c) == 0 then None
    else if LeadLength(c) == 1 && encoding == Utf8Strict && !IsPrint(c) then None
    else Some(LeadLength(c) - 1)
  }

  /** A decoder that takes one unit at a time; `pending` continuation bytes are due. None is a decode_error. */
  function Decode(encoding: Encoding, s: bytes, pending: nat): Option<bytes>
    decreases |s|
  {
    if s == [] then
      if encoding != Cesu8 && pending > 0 then None else Some([])
    else if pending == 0 && s[0] == BACKSLASH then
      match Unescape(encoding, s)
      case None => None
      case Some(unit) => Prepend(unit.text, Decode(encoding, s[unit.length..], 0))
    else
      match Accept(encoding, s[0], pending)
      case None => None
      case Some(due) => Prepend([s[0]], Decode(encoding, s[1..], due))
  }

  /** Every backslash is followed by the byte it escapes. */
  predicate IsEscaped(s: bytes) {
    if s == [] then true
    else if s[0] == BACKSLASH then |s| >= 2 && IsEscaped(s[2..])
    else IsEscaped(s[1..])
  }

  lemma {:induction false} IsEscapedDrop(s: bytes, n: nat)
    requires n <= |s| && IsEscaped(s) && forall i :: 0 <= i < n ==> s[i] != BACKSLASH
    ensures IsEscaped(s[n..])
  {
    if n > 0 {
      IsEscapedDrop(s[1..], n - 1);
      assert s[1..][n - 1..] == s[n..];
    } else {
      assert s[0..] == s;
    }
  }

  lemma IsEscapedAfter(encoding: Encoding, s: bytes)
    requires s != [] && s[0] == BACKSLASH && IsEscaped(s) && Unescape(encoding, s).Some?
    ensures IsEscaped(s[Unescape(encoding, s).value.length..])
  {
    var n := Unescape(encoding, s).value.length;
    if n >= 6 {
      IsEscapedDrop(s[2..], 4);
      assert s[2..][4..] == s[6..];
      if n == 12 {
        assert s[6..][2..] == s[8..];
        IsEscapedDrop(s[8..], 4);
        assert s[8..][4..] == s[12..];
      }
    }
  }

  /** `code >> 4 * k`. */
  function ShiftRight4(code: nat, k: nat): nat {
    if k == 0 then code else ShiftRight4(code / 16, k - 1)
  }

  /** `to_hex`. */
  method ToHex(stream: bytes, code: hex16) returns (out: bytes)
    ensures out == stream + Hex4(code)
  {
    out := stream;
    var pos: int := 3;
    assert ShiftRight4(code, 0) == code;
    assert ShiftRight4(code, 1) == ShiftRight4(code / 16, 0);
    assert ShiftRight4(code, 2) == ShiftRight4(code / 16, 1) == ShiftRight4(code / 16 / 16, 0) == code / 256;
    assert ShiftRight4(code, 3) == ShiftRight4(code / 16, 2) == ShiftRight4(code / 16 / 16, 1) == code / 4096;
    while pos >= 0
      invariant -1 <= pos <= 3
      invariant out == stream + Hex4(code)[..3 - pos]
    {
      out := out + [HexDigit(ShiftRight4(code, pos) % 16)];
      pos := pos - 1;
    }
  }

  /** `from_hex`. */
  method FromHex(s: bytes) returns (r: Option<nat>)
    requires |s| >= 4
    ensures r == FromHex4(s)
  {
    var x: nat := 0;
    var i := 0;
    while i < 4
      invariant 0 <= i <= 4
      invariant forall k :: 0 <= k < i ==> HexValue(s[k]).Some?
      invariant i == 0 ==> x == 0
      invariant i == 1 ==> x == HexValue(s[0]).value * 4096
      invariant i == 2 ==> x == HexValue(s[0]).value * 4096 + HexValue(s[1]).value * 256
      invariant i == 3 ==> x == HexValue(s[0]).value * 4096 + HexValue(s[1]).value * 256 + HexValue(s[2]).value * 16
      invariant i == 4 ==> FromHex4(s) == Some(x)
    {
      var digit := HexValue(s[i]);
      if digit.None? {
        return None;
      }
      x := x + digit.value * (if i == 0 then 4096 else if i == 1 then 256 else if i == 2 then 16 else 1);
      i := i + 1;
    }
    return Some(x);
  }

  /** The unit at `idx` (lines 244 to 265): its length and code point. */
  method ReadUnit(source: bytes, idx: nat) returns (length: nat, code: nat)
    requires idx < |source|
    ensures Unit(length, code) == FirstUnit(source[idx..])
  {
    ghost var rest := source[idx..];
    length := LeadLength(source[idx]);
    if length != 0 && idx + length <= |source| {
      assert rest[1..length] == source[idx + 1..idx + length];
      var extracted := ExtractCode(source, idx, length);
      if extracted.Some? {
        return length, extracted.value;
      }
    }
    return 1, source[idx];
  }

  /** `\uXXXX`, or a surrogate pair of them. */
  method WriteCode(stream: bytes, code: nat) returns (out: bytes)
    ensures out == stream + if code < 0x1_0000 then UnicodeEscape(code)
                            else UnicodeEscape(Surrogates(code).0) + UnicodeEscape(Surrogates(code).1)
  {
    out := stream + [BACKSLASH, LOWER_U];
    if code < 0x1_0000 {
      out := ToHex(out, code);
    } else {
      var (high, low) := Surrogates(code);
      out := ToHex(out, high);
      out := ToHex(out + [BACKSLASH, LOWER_U], low);
    }
  }

  lemma EncodeNothing(p: bytes)
    ensures p + Encode([]) == p
  {
  }

  lemma EncodeUnfold(p: bytes, s: bytes)
    requires s != []
    ensures p + Encode(s) == p + UnitText(s[0], FirstUnit(s).code) + Encode(s[FirstUnit(s).length..])
  {
  }

  /** `string_encode`. */
  method StringEncode(source: bytes) returns (stream: bytes)
    ensures stream == Encode(source)
  {
    hide Encode;
    stream := [];
    var idx := 0;
    assert source[0..] == source;
    while idx < |source|
      invariant idx <= |source|
      invariant stream + Encode(source[idx..]) == Encode(source)
    {
      ghost var rest, before := source[idx..], stream;
      var current := source[idx];
      var replacement := EscapeLetter(current);
      var length := 1;
      if replacement.Some? {
        stream := stream + [BACKSLASH, replacement.value];
      } else {
        var code;
        length, code := ReadUnit(source, idx);
        if IsPrint(current) {
          stream := stream + [current];
        } else {
          stream := WriteCode(stream, code);
        }
      }
      assert FirstUnit(rest).length == length && rest[length..] == source[idx + length..];
      assert stream == before + UnitText(current, FirstUnit(rest).code);
      EncodeUnfold(before, rest);
      idx := idx + length;
    }
    assert source[idx..] == [];
    EncodeNothing(stream);
  }

  /** The escape sequence at `idx`: the bytes it stands for, and where it ends. */
  method ReadEscape(encoding: Encoding, source: bytes, idx: nat) returns (r: Option<Escape>)
    requires idx < |source| && source[idx] == BACKSLASH && IsEscaped(source[idx..])
    ensures r == Unescape(encoding, source[idx..])
  {
    ghost var rest := source[idx..];
    var next := source[idx + 1];
    var replacement := UnescapeLetter(next);
    if replacement.Some? {
      return Some(Escape(2, [replacement.value]));
    }
    if next != LOWER_U || idx + 6 > |source| {
      return None;
    }
    assert rest[2..] == source[idx + 2..];
    var high := FromHex(source[idx + 2..]);
    if high.None? {
      return None;
    }
    if encoding == Cesu8 || high.value < 0xD800 || high.value > 0xDFFF {
      var text := AppendCode([], high.value);
      assert text == Utf8Of(high.value);
      return Some(Escape(6, text));
    }
    if idx + 12 > |source| || source[idx + 6] != BACKSLASH || source[idx + 7] != LOWER_U {
      return None;
    }
    assert rest[8..] == source[idx + 8..];
    var low := FromHex(source[idx + 8..]);
    if low.None? {
      return None;
    }
    var code := Combine(high.value, low.value);
    if code.None? {
      return None;
    }
    var text := AppendCode([], code.value);
    assert text == Utf8Of(code.value);
    return Some(Escape(12, text));
  }

  lemma PrependTwice(p: bytes, q: bytes, r: Option<bytes>)
    ensures Prepend(p, Prepend(q, r)) == Prepend(p + q, r)
  {
    if r.Some? {
      assert p + (q + r.value) == p + q + r.value;
    }
  }

  lemma PrependNothing(r: Option<bytes>)
    ensures Prepend([], r) == r
  {
    if r.Some? {
      assert [] + r.value == r.value;
    }
  }

  /** One step of the decoder, after `done` has been produced. */
  lemma DecodeByte(encoding: Encoding, done: bytes, s: bytes, pending: nat)
    requires s != [] && !(pending == 0 && s[0] == BACKSLASH)
    ensures Prepend(done, Decode(encoding, s, pending))
         == var due := Accept(encoding, s[0], pending);
            if due.None? then None else Prepend(done + [s[0]], Decode(encoding, s[1..], due.value))
  {
    match Accept(encoding, s[0], pending)
    case None =>
    case Some(due) => PrependTwice(done, [s[0]], Decode(encoding, s[1..], due));
  }

  lemma DecodeEscape(encoding: Encoding, done: bytes, s: bytes)
    requires s != [] && s[0] == BACKSLASH
    ensures Prepend(done, Decode(encoding, s, 0))
         == var unit := Unescape(encoding, s);
            if unit.None? then None
            else Prepend(done + unit.value.text, Decode(encoding, s[unit.value.length..], 0))
  {
    match Unescape(encoding, s)
    case None =>
    case Some(unit) => PrependTwice(done, unit.text, Decode(encoding, s[unit.length..], 0));
  }

  lemma DecodeEnd(encoding: Encoding, done: bytes, pending: nat)
    ensures Prepend(done, Decode(encoding, [], pending))
         == if encoding != Cesu8 && pending > 0 then None else Some(done)
  {
    assert done + [] == done;
  }

  /** `string_decode`: output is appended in batches, from `lastPushed` up to the next escape. */
  method StringDecode(encoding: Encoding, source: bytes) returns (r: Option<bytes>)
    requires IsEscaped(source)  // `source[idx + 1]` after a backslash must lie inside the view
    ensures r == Decode(encoding, source, 0)
  {
    hide Decode, Unescape, LeadLength;
    var output: bytes, lastPushed: nat, remaining: nat, idx: nat := [], 0, 0, 0;
    ghost var done: bytes := [];
    assert source[0..] == source;
    PrependNothing(Decode(encoding, source, 0));
    while idx < |source|
      invariant lastPushed <= idx <= |source| && IsEscaped(source[idx..])
      invariant done == output + source[lastPushed..idx]
      invariant Decode(encoding, source, 0) == Prepend(done, Decode(encoding, source[idx..], remaining))
    {
      ghost var rest := source[idx..];
      var current := source[idx];
      if remaining == 0 && current == BACKSLASH {
        DecodeEscape(encoding, done, rest);
        output := output + source[lastPushed..idx];
        var unit := ReadEscape(encoding, source, idx);
        if unit.None? {
          return None;
        }
        IsEscapedAfter(encoding, rest);
        assert rest[unit.value.length..] == source[idx + unit.value.length..];
        output := output + unit.value.text;
        idx := idx + unit.value.length;
        lastPushed := idx;
        done := done + unit.value.text;
      } else {
        DecodeByte(encoding, done, rest, remaining);
        var due := Accept(encoding, current, remaining);
        if due.None? {
          return None;
        }
        remaining := due.value;
        idx := idx + 1;
        assert rest[1..] == source[idx..];
        done := done + [current];
        assert source[lastPushed..idx] == source[lastPushed..idx - 1] + [current];
      }
    }
    DecodeEnd(encoding, done, remaining);
    assert source[idx..] == [] && source[lastPushed..idx] == source[lastPushed..];
    if encoding != Cesu8 && remaining > 0 {
      return None;
    }
    output := output + source[lastPushed..];
    return Some(output);
  }

  // ---- how escapes are spelled ----------------------------------------------------------------------------------

  /** A byte, and the letter that escapes it: `ESCAPES_LIST`. */
  const ESCAPES: seq<(byte, char)> :=
    [(0x08, 'b'), (0x0C, 'f'), (0x0A, 'n'), (0x0D, 'r'), (0x09, 't'), (0x5C, '\\'), (0x2F, '/'), (0x22, '"')]

  /** The two maps are one table, read both ways. */
  lemma EscapesAreOneTable(c: byte, letter: byte)
    ensures EscapeLetter(c) == Some(letter) <==> exists i :: 0 <= i < |ESCAPES| && ESCAPES[i] == (c, letter as char)
    ensures UnescapeLetter(letter) == Some(c) <==> exists i :: 0 <= i < |ESCAPES| && ESCAPES[i] == (c, letter as char)
  {
    assert ESCAPES[0] == (0x08, 'b') && ESCAPES[1] == (0x0C, 'f') && ESCAPES[2] == (0x0A, 'n');
    assert ESCAPES[3] == (0x0D, 'r') && ESCAPES[4] == (0x09, 't') && ESCAPES[5] == (0x5C, '\\');
    assert ESCAPES[6] == (0x2F, '/') && ESCAPES[7] == (0x22, '"');
  }

  /** Digits are written in lower case and read in either. */
  lemma HexDigits(c: byte, d: nat)
    requires d < 16
    ensures HexDigit(d) == "0123456789abcdef"[d] as int
    ensures HexValue(c) == Some(d) <==> c == "0123456789abcdef"[d] as int || c == "0123456789ABCDEF"[d] as int
  {
  }

  /** What is written for one unit: a letter for the bytes of the table, the byte itself if it is printable, and
      otherwise the code in four hexadecimal digits or two times four. */
  lemma EncodesUnit(s: bytes)
    requires s != []
    ensures var (c, code, rest) := (s[0], FirstUnit(s).code, Encode(s[FirstUnit(s).length..]));
      && (EscapeLetter(c).Some? ==> Encode(s) == [BACKSLASH, EscapeLetter(c).value] + rest)
      && (EscapeLetter(c).None? && IsPrint(c) ==> Encode(s) == [c] + rest)
      && (EscapeLetter(c).None? && !IsPrint(c) && code < 0x1_0000 ==>
            Encode(s) == [BACKSLASH, LOWER_U] + Hex4(code) + rest)
      && (EscapeLetter(c).None? && !IsPrint(c) && code >= 0x1_0000 ==>
            Encode(s) == ([BACKSLASH, LOWER_U] + Hex4(Surrogates(code).0))
                         + ([BACKSLASH, LOWER_U] + Hex4(Surrogates(code).1)) + rest)
  {
    hide EscapeLetter, Hex4, Surrogates;
  }
}
