/** What decoding does to an encoded string, for every byte string. */
module CodecTheorems {
  import opened Bytes
  import opened Utf8
  import opened StringCodec

  /** One piece of an encoded string: a character as it is, a letter escape, or `\uXXXX`. */
  datatype AnyPiece = Plain(c: byte) | Letter(c: byte) | Hex(code: hex16)
  {
    predicate IsValid() {
      match this
      case Plain(c) => IsPrint(c) && EscapeLetter(c).None?
      case Letter(c) => EscapeLetter(c).Some?
      case Hex(_) => true
    }
  }
  type Piece = p: AnyPiece | p.IsValid() witness Hex(0)

  function PieceText(p: Piece): bytes {
    match p
    case Plain(c) => [c]
    case Letter(c) => [BACKSLASH, EscapeLetter(c).value]
    case Hex(code) => UnicodeEscape(code)
  }

  /** The sixteen-bit unit that a piece denotes. */
  function PieceValue(p: Piece): hex16 {
    match p
    case Plain(c) => c
    case Letter(c) => c
    case Hex(code) => code
  }

  function PiecesText(ps: seq<Piece>): bytes {
    if ps == [] then [] else PieceText(ps[0]) + PiecesText(ps[1..])
  }

  function UnitPieces(lead: byte, code: nat): (r: seq<Piece>)
    ensures r != []
  {
    if EscapeLetter(lead).Some? then [Letter(lead)]
    else if IsPrint(lead) then [Plain(lead)]
    else if code < 0x1_0000 then [Hex(code)]
    else [Hex(Surrogates(code).0), Hex(Surrogates(code).1)]
  }

  function Pieces(s: bytes): seq<Piece> {
    if s == [] then [] else UnitPieces(s[0], FirstUnit(s).code) + Pieces(s[FirstUnit(s).length..])
  }

  /** The UTF-16 units that the encoder writes for `s`, escaped or not. */
  function Utf16Units(s: bytes): seq<hex16> {
    if s == [] then []
    else
      var code := FirstUnit(s).code;
      (if code < 0x1_0000 then [code] else [Surrogates(code).0, Surrogates(code).1])
      + Utf16Units(s[FirstUnit(s).length..])
  }

  function Values(ps: seq<Piece>): seq<hex16> {
    if ps == [] then [] else [PieceValue(ps[0])] + Values(ps[1..])
  }

  /** UTF-16 units to UTF-8. Surrogates must pair up, except that CESU-8 keeps each one (section 2 of RFC 2781). */
  function Transcode(encoding: Encoding, us: seq<hex16>): Option<bytes> {
    if us == [] then Some([])
    else if encoding == Cesu8 || !IsSurrogate(us[0]) then Prepend(Utf8Of(us[0]), Transcode(encoding, us[1..]))
    else if |us| < 2 then None
    else
      match Combine(us[0], us[1])
      case None => None
      case Some(code) => Prepend(Utf8Of(code), Transcode(encoding, us[2..]))
  }

  lemma {:induction false} PiecesTextConcat(a: seq<Piece>, b: seq<Piece>)
    ensures PiecesText(a + b) == PiecesText(a) + PiecesText(b)
  {
    hide PieceText;
    if a == [] {
      assert a + b == b;
    } else {
      PiecesTextConcat(a[1..], b);
      assert (a + b)[0] == a[0] && (a + b)[1..] == a[1..] + b;
    }
  }

  lemma {:induction false} ValuesConcat(a: seq<Piece>, b: seq<Piece>)
    ensures Values(a + b) == Values(a) + Values(b)
  {
    hide PieceValue;
    if a == [] {
      assert a + b == b;
    } else {
      ValuesConcat(a[1..], b);
      assert (a + b)[0] == a[0] && (a + b)[1..] == a[1..] + b;
    }
  }

  lemma UnitPiecesText(lead: byte, code: nat)
    ensures PiecesText(UnitPieces(lead, code)) == UnitText(lead, code)
  {
    var ps := UnitPieces(lead, code);
    assert PiecesText(ps[1..]) == if |ps| == 1 then [] else PieceText(ps[1]) + [];
  }

  lemma UnitPiecesValues(s: bytes)
    requires s != []
    ensures Values(UnitPieces(s[0], FirstUnit(s).code))
         == if FirstUnit(s).code < 0x1_0000 then [FirstUnit(s).code]
            else [Surrogates(FirstUnit(s).code).0, Surrogates(FirstUnit(s).code).1]
  {
    if s[0] < 0x80 { AsciiUnit(s); }
    var ps := UnitPieces(s[0], FirstUnit(s).code);
    assert Values(ps[1..]) == if |ps| == 1 then [] else [PieceValue(ps[1])] + [];
  }

  lemma AsciiUnit(s: bytes)
    requires s != [] && s[0] < 0x80
    ensures FirstUnit(s) == Unit(1, s[0])
  {
  }

  lemma {:induction false} EncodeIsPieces(s: bytes)
    ensures Encode(s) == PiecesText(Pieces(s))
    ensures Values(Pieces(s)) == Utf16Units(s)
  {
    if s != [] {
      var u := FirstUnit(s);
      EncodeIsPieces(s[u.length..]);
      UnitPiecesText(s[0], u.code);
      PiecesTextConcat(UnitPieces(s[0], u.code), Pieces(s[u.length..]));
      UnitPiecesValues(s);
      ValuesConcat(UnitPieces(s[0], u.code), Pieces(s[u.length..]));
    }
  }

  lemma HexDigitsReadBack(code: hex16)
    ensures FromHex4(Hex4(code)) == Some(code)
  {
    var h := Hex4(code);
    assert code / 16 / 16 == code / 256 && code / 16 / 16 / 16 == code / 4096;
    assert HexValue(h[0]) == Some(code / 4096);
    assert HexValue(h[1]) == Some((code / 256) % 16);
    assert HexValue(h[2]) == Some((code / 16) % 16);
    assert HexValue(h[3]) == Some(code % 16);
  }

  lemma HexEscapeReads(code: hex16, rest: bytes)
    ensures FromHex4((UnicodeEscape(code) + rest)[2..]) == Some(code)
  {
    HexDigitsReadBack(code);
    var t := (UnicodeEscape(code) + rest)[2..];
    assert t[0] == Hex4(code)[0] && t[1] == Hex4(code)[1] && t[2] == Hex4(code)[2] && t[3] == Hex4(code)[3];
  }

  /** A piece that is no surrogate decodes to its own code point. */
  lemma DecodePiece(encoding: Encoding, p: Piece, rest: bytes)
    requires encoding == Cesu8 || !IsSurrogate(PieceValue(p))
    ensures Decode(encoding, PieceText(p) + rest, 0) == Prepend(Utf8Of(PieceValue(p)), Decode(encoding, rest, 0))
  {
    hide Utf8Of, FromHex4;
    var s := PieceText(p) + rest;
    match p
    case Plain(c) =>
      AsciiText(c);
      assert s[1..] == rest;
    case Letter(c) =>
      AsciiText(c);
      assert s[2..] == rest;
    case Hex(code) =>
      HexEscapeReads(code, rest);
      assert s[6..] == rest;
  }

  lemma AsciiText(c: byte)
    ensures c < 0x80 ==> Utf8Of(c) == [c]
  {
  }

  lemma DecodePair(encoding: Encoding, high: hex16, low: hex16, rest: bytes)
    requires encoding != Cesu8 && IsSurrogate(high)
    ensures Decode(encoding, UnicodeEscape(high) + (UnicodeEscape(low) + rest), 0)
      == if Combine(high, low).None? then None
         else Prepend(Utf8Of(Combine(high, low).value), Decode(encoding, rest, 0))
  {
    hide Utf8Of, FromHex4, Combine;
    var tail := UnicodeEscape(low) + rest;
    var s := UnicodeEscape(high) + tail;
    HexEscapeReads(high, tail);
    HexEscapeReads(low, rest);
    assert s[8..] == tail[2..];
    assert s[12..] == rest;
  }

  lemma DecodeLoneSurrogate(encoding: Encoding, high: hex16, tail: bytes)
    requires encoding != Cesu8 && IsSurrogate(high)
    requires |tail| < 2 || tail[0] != BACKSLASH || tail[1] != LOWER_U
    ensures Decode(encoding, UnicodeEscape(high) + tail, 0) == None
  {
    hide Utf8Of, FromHex4, Combine;
    var s := UnicodeEscape(high) + tail;
    HexEscapeReads(high, tail);
    assert |s| >= 12 ==> s[6] == tail[0] && s[7] == tail[1];
  }

  /** A surrogate decodes together with the piece after it, or not at all. */
  lemma DecodeSurrogate(encoding: Encoding, high: hex16, ps: seq<Piece>)
    requires encoding != Cesu8 && IsSurrogate(high)
    ensures Decode(encoding, UnicodeEscape(high) + PiecesText(ps), 0)
      == if ps == [] || Combine(high, PieceValue(ps[0])).None? then None
         else Prepend(Utf8Of(Combine(high, PieceValue(ps[0])).value), Decode(encoding, PiecesText(ps[1..]), 0))
  {
    hide Utf8Of, FromHex4, Decode, UnicodeEscape;
    if ps != [] && ps[0].Hex? {
      DecodePair(encoding, high, ps[0].code, PiecesText(ps[1..]));
    } else {
      DecodeLoneSurrogate(encoding, high, PiecesText(ps));
    }
  }

  lemma {:induction false} DecodePieces(encoding: Encoding, ps: seq<Piece>)
    ensures Decode(encoding, PiecesText(ps), 0) == Transcode(encoding, Values(ps))
    decreases |ps|
  {
    hide Utf8Of, Combine, Unescape, UnicodeEscape;
    if ps != [] {
      var u := PieceValue(ps[0]);
      assert Values(ps)[1..] == Values(ps[1..]);
      if encoding == Cesu8 || !IsSurrogate(u) {
        DecodePiece(encoding, ps[0], PiecesText(ps[1..]));
        DecodePieces(encoding, ps[1..]);
      } else {
        assert ps[0] == Hex(u);
        DecodeSurrogate(encoding, u, ps[1..]);
        if |ps| >= 2 {
          assert Values(ps)[1] == PieceValue(ps[1]);
          assert Values(ps)[2..] == Values(ps[1..])[1..] == Values(ps[1..][1..]);
          DecodePieces(encoding, ps[1..][1..]);
        }
      }
    }
  }

  /** Decoding an encoded string is, for every byte string, the same as transcoding its UTF-16 units. So it
      fails exactly when a surrogate among the units has no partner. */
  lemma DecodeEncode(encoding: Encoding, s: bytes)
    ensures Decode(encoding, Encode(s), 0) == Transcode(encoding, Utf16Units(s))
  {
    EncodeIsPieces(s);
    DecodePieces(encoding, Pieces(s));
  }

  /** Every unit of `s` is a scalar value. */
  predicate AllScalar(s: bytes) {
    s == [] || (IsScalar(FirstUnit(s).code) && AllScalar(s[FirstUnit(s).length..]))
  }

  /** Each unit in its shortest form: a stray byte b becomes U+00b, an overlong sequence shrinks. */
  function Repair(s: bytes): bytes
    requires AllScalar(s)
  {
    if s == [] then [] else Utf8Of(FirstUnit(s).code) + Repair(s[FirstUnit(s).length..])
  }

  lemma ScalarSurrogates(code: nat)
    requires 0x1_0000 <= code <= 0x10FFFF
    ensures IsSurrogate(Surrogates(code).0) && Combine(Surrogates(code).0, Surrogates(code).1) == Some(code)
  {
    var v := code - 0x1_0000;
    assert v / 1024 < 1024;
    assert (v / 1024) % 0x1_0000 == v / 1024;
    assert v / 1024 / 8192 == 0 && (v / 1024) % 2048 == v / 1024;
  }

  lemma {:induction false} TranscodeScalars(encoding: Encoding, s: bytes)
    requires AllScalar(s) && encoding != Cesu8
    ensures Transcode(encoding, Utf16Units(s)) == Some(Repair(s))
  {
    if s != [] {
      hide Utf8Of, Surrogates, Combine;
      var u := FirstUnit(s);
      var rest := Utf16Units(s[u.length..]);
      TranscodeScalars(encoding, s[u.length..]);
      if u.code < 0x1_0000 {
        assert Utf16Units(s)[1..] == rest;
      } else {
        ScalarSurrogates(u.code);
        assert Utf16Units(s)[2..] == rest;
      }
    }
  }

  /** The round trip: whatever is made of scalar values decodes to its repaired form. */
  lemma RoundTrip(encoding: Encoding, s: bytes)
    requires AllScalar(s) && encoding != Cesu8
    ensures Decode(encoding, Encode(s), 0) == Some(Repair(s))
  {
    DecodeEncode(encoding, s);
    TranscodeScalars(encoding, s);
  }

  predicate IsHigh(unit: nat) { 0xD800 <= unit < 0xDC00 }

  predicate IsLow(unit: nat) { 0xDC00 <= unit < 0xE000 }

  /** Section 2.2 of RFC 2781: every high surrogate is followed by a low one, and every low one follows a high one. */
  predicate IsPaired(us: seq<hex16>) {
    && (forall i :: 0 <= i < |us| && IsHigh(us[i]) ==> i + 1 < |us| && IsLow(us[i + 1]))
    && LowsFollow(us)
  }

  predicate LowsFollow(us: seq<hex16>) {
    forall i :: 0 <= i < |us| && IsLow(us[i]) ==> i > 0 && IsHigh(us[i - 1])
  }

  /** Dropping what comes first, a unit or a pair, leaves the rest paired or not as it was. */
  lemma PairedStep(us: seq<hex16>)
    requires us != []
    ensures !IsSurrogate(us[0]) ==> (IsPaired(us) <==> IsPaired(us[1..]))
    ensures IsSurrogate(us[0]) && (|us| < 2 || !IsHigh(us[0]) || !IsLow(us[1])) ==> !IsPaired(us)
    ensures |us| >= 2 && IsHigh(us[0]) && IsLow(us[1]) ==> (IsPaired(us) <==> IsPaired(us[2..]))
  {
    var n := if IsSurrogate(us[0]) then 2 else 1;
    if n <= |us| {
      var rest := us[n..];
      assert forall i :: 0 <= i < |rest| ==> rest[i] == us[i + n];
      assert forall i :: n <= i < |us| ==> us[i] == rest[i - n];
      if rest != [] && IsLow(rest[0]) {
        assert !IsPaired(rest);
        assert IsLow(us[n]) && (us[n - 1] == us[0] || us[n - 1] == us[1]);
      }
    }
  }

  lemma {:induction false} TranscodesIffPaired(encoding: Encoding, us: seq<hex16>)
    ensures Transcode(encoding, us).Some? <==> encoding == Cesu8 || IsPaired(us)
  {
    hide IsPaired, Utf8Of;
    if us == [] {
      NothingIsPaired();
    } else {
      PairedStep(us);
      TranscodesIffPaired(encoding, us[1..]);
      if |us| >= 2 {
        TranscodesIffPaired(encoding, us[2..]);
      }
    }
  }

  lemma NothingIsPaired()
    ensures IsPaired([])
  {
  }

  /** An encoded string decodes exactly if the surrogates that the encoder wrote are paired. */
  lemma DecodesIffPaired(encoding: Encoding, s: bytes)
    ensures Decode(encoding, Encode(s), 0).Some? <==> encoding == Cesu8 || IsPaired(Utf16Units(s))
  {
    hide IsPaired, Decode, Encode, Transcode;
    DecodeEncode(encoding, s);
    TranscodesIffPaired(encoding, Utf16Units(s));
  }

  lemma Multiple2048(j: nat, x: nat)
    ensures (j * 2048 + x) % 2048 == x % 2048
  {
  }

  lemma Multiple8192(j: nat, x: nat)
    ensures (j * 8192 + x) / 8192 == j + x / 8192
  {
  }

  lemma Even(k: nat, y: nat)
    ensures (8 * k + y) % 2 == y % 2
  {
  }

  lemma SixteenBits(q: nat)
    ensures (q % 0x1_0000) % 2048 == q % 2048
    ensures (q % 0x1_0000) / 8192 % 2 == q / 8192 % 2
  {
    var k, x := q / 0x1_0000, q % 0x1_0000;
    var y := x / 8192;
    assert q == (32 * k) * 2048 + x == (8 * k) * 8192 + x;
    Multiple2048(32 * k, x);
    Multiple8192(8 * k, x);
    Even(k, y);
  }

  lemma ElevenBits(q: nat)
    ensures q % 2048 == (q / 1024 % 2) * 1024 + q % 1024
  {
  }

  lemma Quotients(v: nat)
    ensures v / 1024 / 1024 == v / 0x10_0000 && v / 1024 / 8192 == v / 0x80_0000
    ensures v % 0x10_0000 == (v / 1024 % 1024) * 1024 + v % 1024
  {
  }

  lemma HighMarkOfLarge(v: nat)
    ensures var high := WithHighMark((v / 1024) % 0x1_0000);
      && (IsHigh(high) <==> (v / 0x10_0000) % 2 == 0 && (v / 0x80_0000) % 2 == 0)
      && (IsHigh(high) ==> high == 0xD800 + (v / 1024) % 1024)
  {
    var q := v / 1024;
    Quotients(v);
    SixteenBits(q);
    ElevenBits(q);
    HighMarkIsHigh(q / 8192 % 2, q / 1024 % 2, q % 1024);
  }

  lemma HighMarkIsHigh(b: nat, a: nat, low: nat)
    requires b < 2 && a < 2 && low < 1024
    ensures IsHigh(0xD800 + b * 8192 + (a * 1024 + low)) <==> a == 0 && b == 0
  {
  }

  /** A code point above U+10FFFF is written as two units, of which the first is cut to sixteen bits. They are a pair
      exactly if bits 20 and 23 of the distance from U+10000 are zero, and then they stand for another character. */
  lemma LargeCodeUnits(code: nat)
    requires code > 0x10FFFF
    ensures var (v, r) := (code - 0x1_0000, Combine(Surrogates(code).0, Surrogates(code).1));
      && (r.Some? <==> (v / 0x10_0000) % 2 == 0 && (v / 0x80_0000) % 2 == 0)
      && (r.Some? ==> r.value == 0x1_0000 + v % 0x10_0000 && r.value != code)
  {
    hide WithHighMark;
    var v := code - 0x1_0000;
    HighMarkOfLarge(v);
    Quotients(v);
  }

  lemma UnitsOfLarge(s: bytes, code: nat)
    requires s != [] && FirstUnit(s) == Unit(|s|, code) && code >= 0x1_0000
    ensures Utf16Units(s) == [Surrogates(code).0, Surrogates(code).1]
  {
    hide FirstUnit, Surrogates;
    assert s[|s|..] == [];
  }

  lemma SecondIsLow(code: nat)
    requires code >= 0x1_0000
    ensures IsLow(Surrogates(code).1)
  {
  }

  lemma TranscodePair(encoding: Encoding, high: hex16, low: hex16)
    requires encoding != Cesu8 && Combine(high, low).Some?
    ensures Transcode(encoding, [high, low]) == Some(Utf8Of(Combine(high, low).value))
  {
    hide Utf8Of, Combine;
    var us := [high, low];
    assert IsSurrogate(high) by { CombineNeedsSurrogates(high, low); }
    assert us[2..] == [];
    var text := Utf8Of(Combine(high, low).value);
    assert text + [] == text;
  }

  lemma CombineNeedsSurrogates(high: hex16, low: hex16)
    ensures Combine(high, low).Some? <==> IsHigh(high) && IsLow(low)
  {
  }

  /** So an encoded code point above U+10FFFF decodes, to that other character, exactly under the same condition. */
  lemma LargeCodeDecodes(encoding: Encoding, s: bytes)
    requires encoding != Cesu8 && s != [] && FirstUnit(s).length == |s| && FirstUnit(s).code > 0x10FFFF
    ensures var v := FirstUnit(s).code - 0x1_0000;
      Decode(encoding, Encode(s), 0) ==
        if (v / 0x10_0000) % 2 == 0 && (v / 0x80_0000) % 2 == 0 then Some(Utf8Of(0x1_0000 + v % 0x10_0000)) else None
  {
    hide FirstUnit, Decode, Encode, Surrogates, Transcode, Utf8Of, IsPaired, Combine;
    var code := FirstUnit(s).code;
    UnitsOfLarge(s, code);
    LargeCodeUnits(code);
    DecodeEncode(encoding, s);
    var high, low := Surrogates(code).0, Surrogates(code).1;
    CombineNeedsSurrogates(high, low);
    SecondIsLow(code);
    if Combine(high, low).Some? {
      TranscodePair(encoding, high, low);
    } else {
      TranscodesIffPaired(encoding, [high, low]);
      PairOfTwo(high, low);
    }
  }

  lemma PairOfTwo(high: hex16, low: hex16)
    requires !(IsHigh(high) && IsLow(low)) && (IsHigh(high) || IsLow(low) || IsHigh(low) || IsLow(high))
    ensures !IsPaired([high, low])
  {
    assert [high, low][0] == high && [high, low][1] == low;
  }

  /** For example: a lone surrogate is refused, ... */
  lemma LoneSurrogateFails()
    ensures Decode(Encoding.Utf8, Encode([0xED, 0xA0, 0x80]), 0) == None
  {
    hide FirstUnit, Decode, Encode, Surrogates;
    var s: bytes := [0xED, 0xA0, 0x80];
    UnitOfThree(s);
    assert Utf16Units(s) == [0xD800] + Utf16Units(s[3..]) == [0xD800];
    DecodesIffPaired(Encoding.Utf8, s);
    assert IsHigh(Utf16Units(s)[0]);
  }

  /** ... and U+110000 too, ... */
  lemma LargeCodeFails()
    ensures Decode(Encoding.Utf8, Encode([0xF4, 0x90, 0x80, 0x80]), 0) == None
  {
    hide FirstUnit, Decode, Encode;
    UnitOfFour([0xF4, 0x90, 0x80, 0x80]);
    LargeCodeDecodes(Encoding.Utf8, [0xF4, 0x90, 0x80, 0x80]);
  }

  /** ... but five bytes for U+2010000 come back as U+10000. */
  lemma LargeCodeAliases()
    ensures Decode(Encoding.Utf8, Encode([0xFA, 0x80, 0x90, 0x80, 0x80]), 0) == Some(Utf8Of(0x1_0000))
  {
    hide FirstUnit, Decode, Encode, Utf8Of;
    UnitOfFive([0xFA, 0x80, 0x90, 0x80, 0x80]);
    LargeCodeDecodes(Encoding.Utf8, [0xFA, 0x80, 0x90, 0x80, 0x80]);
  }

  lemma UnitOfFive(s: bytes)
    requires s == [0xFA, 0x80, 0x90, 0x80, 0x80]
    ensures FirstUnit(s) == Unit(5, 0x201_0000)
  {
    assert s[1..5] == [0x80, 0x90, 0x80, 0x80];
    assert [0x80, 0x90, 0x80, 0x80][1..] == [0x90, 0x80, 0x80] && [0x90, 0x80, 0x80][1..] == [0x80, 0x80];
    assert [0x80, 0x80][1..] == [0x80] && [0x80][1..] == [];
    assert Continue(2, s[1..5]) == Continue(128, [0x90, 0x80, 0x80]) == Continue(128 * 64 + 16, [0x80, 0x80]);
    assert Continue(0x2010, [0x80, 0x80]) == Continue(0x8_0400, [0x80]) == Continue(0x201_0000, []);
  }

  lemma {:induction false} RepairIsWellFormed(s: bytes)
    requires AllScalar(s)
    ensures IsWellFormed(Repair(s))
  {
    if s != [] {
      var u := FirstUnit(s);
      var rest := Repair(s[u.length..]);
      RepairIsWellFormed(s[u.length..]);
      ScalarUnit(u.code, rest);
      assert Repair(s)[|Utf8Of(u.code)|..] == rest;
    }
  }

  lemma {:induction false} WellFormedIsItsRepair(s: bytes)
    requires IsWellFormed(s)
    ensures AllScalar(s) && Repair(s) == s
  {
    hide WellFormedLength, FirstUnit, Utf8Of;
    if s != [] {
      WellFormedUnit(s);
      WellFormedIsItsRepair(s[WellFormedLength(s)..]);
    }
  }

  /** Repair changes nothing exactly on well-formed UTF-8, and doing it twice changes nothing more. */
  lemma RepairFixedPoints(s: bytes)
    requires AllScalar(s)
    ensures Repair(s) == s <==> IsWellFormed(s)
    ensures AllScalar(Repair(s)) && Repair(Repair(s)) == Repair(s)
  {
    RepairIsWellFormed(s);
    WellFormedIsItsRepair(Repair(s));
    if IsWellFormed(s) {
      WellFormedIsItsRepair(s);
    }
  }

  /** Well-formed UTF-8 survives encoding and decoding unchanged. */
  lemma WellFormedRoundTrip(encoding: Encoding, s: bytes)
    requires IsWellFormed(s) && encoding != Cesu8
    ensures Decode(encoding, Encode(s), 0) == Some(s)
  {
    WellFormedIsItsRepair(s);
    RoundTrip(encoding, s);
  }

  lemma {:induction false} TranscodeIsWellFormed(encoding: Encoding, us: seq<hex16>)
    requires encoding != Cesu8 && Transcode(encoding, us).Some?
    ensures IsWellFormed(Transcode(encoding, us).value)
  {
    hide Utf8Of, Combine, WellFormedLength;
    if us != [] {
      var n := if IsSurrogate(us[0]) then 2 else 1;
      var code := if n == 1 then us[0] else Combine(us[0], us[1]).value;
      var rest := Transcode(encoding, us[n..]).value;
      TranscodeIsWellFormed(encoding, us[n..]);
      ScalarUnit(code, rest);
      assert (Utf8Of(code) + rest)[|Utf8Of(code)|..] == rest;
    }
  }

  /** ... and nothing else does: whatever decodes from an encoded string is well-formed. */
  lemma RoundTripIffWellFormed(encoding: Encoding, s: bytes)
    requires encoding != Cesu8
    ensures Decode(encoding, Encode(s), 0) == Some(s) <==> IsWellFormed(s)
  {
    hide Decode, Encode, IsWellFormed, Transcode, Utf16Units;
    DecodeEncode(encoding, s);
    if IsWellFormed(s) {
      WellFormedRoundTrip(encoding, s);
    } else if Transcode(encoding, Utf16Units(s)).Some? {
      TranscodeIsWellFormed(encoding, Utf16Units(s));
    }
  }

  // ---- CESU-8 ---------------------------------------------------------------------------------------------------

  /** Each unit is a code of the basic plane, surrogates included, in its shortest form. */
  predicate IsBasicPlane(s: bytes) {
    s == []
    || (FirstUnit(s).code < 0x1_0000 && s[..FirstUnit(s).length] == Utf8Of(FirstUnit(s).code)
        && IsBasicPlane(s[FirstUnit(s).length..]))
  }

  /** Every shortest form of at most three bytes is read back, also that of a surrogate. */
  lemma BasicUnit(code: hex16, rest: bytes)
    ensures FirstUnit(Utf8Of(code) + rest) == Unit(|Utf8Of(code)|, code)
  {
    hide FirstUnit;
    if IsScalar(code) {
      ScalarUnit(code, rest);
    } else {
      var s := Utf8Of(code) + rest;
      var x, y, z := code / 4096, (code / 64) % 64, code % 64;
      Recompose(code);
      assert code / 0x4_0000 == 0 && x % 64 == x;
      assert s[0] == 0xE0 + x && s[1] == 0x80 + y && s[2] == 0x80 + z;
      assert (0x80 + y) % 64 == y && (0x80 + z) % 64 == z;
      UnitOfThree(s);
    }
  }

  /** The first UTF-16 unit that the encoder writes, and the others. */
  lemma UnitsSplit(s: bytes)
    requires s != []
    ensures var (us, u) := (Utf16Units(s), FirstUnit(s));
      && us != []
      && (u.code < 0x1_0000 ==> us[0] == u.code && us[1..] == Utf16Units(s[u.length..]))
  {
    hide FirstUnit, Surrogates;
  }

  lemma CesuStep(us: seq<hex16>)
    requires us != []
    ensures Transcode(Cesu8, us) == Prepend(Utf8Of(us[0]), Transcode(Cesu8, us[1..]))
  {
    hide Utf8Of;
  }

  lemma {:induction false} CesuIsTotal(us: seq<hex16>)
    ensures Transcode(Cesu8, us).Some?
  {
    hide Utf8Of;
    if us != [] {
      CesuIsTotal(us[1..]);
    }
  }

  lemma {:induction false} CesuFixed(s: bytes)
    ensures Transcode(Cesu8, Utf16Units(s)) == Some(s) <==> IsBasicPlane(s)
    decreases |s|
  {
    hide FirstUnit, Utf8Of, Transcode, Utf16Units;
    if s == [] {
      CesuOfNothing();
    } else {
      var us, u := Utf16Units(s), FirstUnit(s);
      UnitsSplit(s);
      CesuStep(us);
      CesuIsTotal(us[1..]);
      CesuFixed(s[u.length..]);
      var more := Transcode(Cesu8, us[1..]).value;
      if Transcode(Cesu8, us) == Some(s) {
        BasicUnit(us[0], more);
        assert s[|Utf8Of(us[0])|..] == more && s[..|Utf8Of(us[0])|] == Utf8Of(us[0]);
      }
      if IsBasicPlane(s) {
        assert s == s[..u.length] + s[u.length..];
      }
    }
  }

  lemma CesuOfNothing()
    ensures Transcode(Cesu8, Utf16Units([])) == Some([])
  {
  }

  /** The CESU-8 decoder gives back exactly the strings of codes of the basic plane in shortest form. Any other code is
      written as a pair of surrogates, which it keeps as two characters. */
  lemma CesuRoundTrip(s: bytes)
    ensures Decode(Cesu8, Encode(s), 0) == Some(s) <==> IsBasicPlane(s)
  {
    hide Decode, Encode, Transcode, Utf16Units, IsBasicPlane;
    DecodeEncode(Cesu8, s);
    CesuFixed(s);
  }

  /** For example: a lone surrogate does come back, ... */
  lemma CesuKeepsLoneSurrogate()
    ensures Decode(Cesu8, Encode([0xED, 0xA0, 0x80]), 0) == Some([0xED, 0xA0, 0x80])
  {
    hide Decode, Encode;
    var s: bytes := [0xED, 0xA0, 0x80];
    assert Utf8Of(0xD800) == s && s + [] == s;
    BasicUnit(0xD800, []);
    CesuRoundTrip(s);
  }

  /** ... and the well-formed U+10000 does not. */
  lemma CesuSplitsPair()
    ensures IsWellFormed([0xF0, 0x90, 0x80, 0x80])
    ensures Decode(Cesu8, Encode([0xF0, 0x90, 0x80, 0x80]), 0) != Some([0xF0, 0x90, 0x80, 0x80])
  {
    hide Decode, Encode, FirstUnit;
    UnitOfFour([0xF0, 0x90, 0x80, 0x80]);
    CesuRoundTrip([0xF0, 0x90, 0x80, 0x80]);
  }

  lemma {:induction false} CompleteConcat(a: bytes, b: bytes, pending: nat)
    requires IsComplete(a, pending) && IsComplete(b, 0)
    ensures IsComplete(a + b, pending)
  {
    if a == [] {
      assert a + b == b;
    } else {
      assert (a + b)[1..] == a[1..] + b;
      CompleteConcat(a[1..], b, if pending > 0 then pending - 1 else LeadLength(a[0]) - 1);
    }
  }

  lemma Utf8OfIsComplete(code: nat)
    requires code <= 0x10FFFF
    ensures IsComplete(Utf8Of(code), 0)
  {
    var s := Utf8Of(code);
    if |s| > 1 {
      assert forall i :: 1 <= i < |s| ==> IsContinuation(s[i]);
      assert LeadLength(s[0]) == |s|;
      ContinuationsComplete(s[1..]);
    }
  }

  lemma {:induction false} ContinuationsComplete(s: bytes)
    requires forall i :: 0 <= i < |s| ==> IsContinuation(s[i])
    ensures IsComplete(s, |s|)
  {
    if s != [] {
      ContinuationsComplete(s[1..]);
    }
  }

  /** What the UTF-8 decoders return is made of structurally complete sequences. */
  lemma {:induction false} DecodedIsComplete(encoding: Encoding, s: bytes, pending: nat)
    requires encoding != Cesu8 && Decode(encoding, s, pending).Some?
    ensures IsComplete(Decode(encoding, s, pending).value, pending)
    decreases |s|
  {
    hide Utf8Of, FromHex4;
    if s != [] {
      var out := Decode(encoding, s, pending).value;
      if pending == 0 && s[0] == BACKSLASH {
        var unit := Unescape(encoding, s).value;
        DecodedIsComplete(encoding, s[unit.length..], 0);
        UnescapedIsComplete(encoding, s);
        CompleteConcat(unit.text, Decode(encoding, s[unit.length..], 0).value, 0);
      } else {
        var due := Accept(encoding, s[0], pending).value;
        DecodedIsComplete(encoding, s[1..], due);
        assert out[1..] == Decode(encoding, s[1..], due).value;
      }
    }
  }

  lemma UnescapedIsComplete(encoding: Encoding, s: bytes)
    requires s != [] && s[0] == BACKSLASH && Unescape(encoding, s).Some?
    ensures IsComplete(Unescape(encoding, s).value.text, 0)
  {
    hide Utf8Of, IsComplete;
    if UnescapeLetter(s[1]).Some? {
      AsciiIsComplete(UnescapeLetter(s[1]).value);
    } else {
      var high := FromHex4(s[2..]).value;
      Utf8OfIsComplete(high);
      if encoding != Cesu8 && IsSurrogate(high) {
        Utf8OfIsComplete(Combine(high, FromHex4(s[8..]).value).value);
      }
    }
  }

  lemma AsciiIsComplete(c: byte)
    requires c < 0x80
    ensures IsComplete([c], 0)
  {
  }

  // ---- bytes without escapes ------------------------------------------------------------------------------------

  /** The continuation bytes that a byte announces, if a decoder takes it at all. */
  function Announces(encoding: Encoding, c: byte): Option<nat> {
    if c < 0x80 then if encoding == Utf8Strict && !(' ' as int <= c <= '~' as int) then None else Some(0)
    else if c < 0xC0 then None
    else if c < 0xE0 then Some(1)
    else if c < 0xF0 then Some(2)
    else if c < 0xF8 then Some(3)
    else if c < 0xFC then Some(4)
    else if c < 0xFE then Some(5)
    else None
  }

  /** Sequences follow one another. Only CESU-8 lets the last one be cut off. */
  predicate AreSequences(encoding: Encoding, s: bytes, due: nat) {
    if s == [] then due == 0 || encoding == Cesu8
    else if due > 0 then 0x80 <= s[0] <= 0xBF && AreSequences(encoding, s[1..], due - 1)
    else Announces(encoding, s[0]).Some? && AreSequences(encoding, s[1..], Announces(encoding, s[0]).value)
  }

  /** Each decoder passes bytes without a backslash on, or fails. Overlong forms and surrogates get through. */
  lemma {:induction false} RawBytesDecode(encoding: Encoding, s: bytes, due: nat)
    requires BACKSLASH !in s
    ensures Decode(encoding, s, due) == if AreSequences(encoding, s, due) then Some(s) else None
    decreases |s|
  {
    if s != [] {
      assert s[0] in s;
      assert forall c :: c in s[1..] ==> c in s;
      var next := Accept(encoding, s[0], due);
      if next.Some? {
        RawBytesDecode(encoding, s[1..], next.value);
        assert [s[0]] + s[1..] == s;
      }
    }
  }
}
