/** The encoders write JSON texts of RFC 8259, which describe the encoded tree. */
module EncoderConformance {
  import opened Bytes
  import opened Json
  import opened Integers
  import opened Utf8
  import opened StringCodec
  import opened CodecTheorems
  import opened NumberGrammar
  import opened ParserSpec
  import opened Encoders
  import opened RoundTrip
  import opened Rfc8259
  import opened Conformance

  // ---- strings --------------------------------------------------------------------------------------------------

  /** The character that a piece of an encoded string is. */
  function CharOf(p: Piece): Char {
    match p
    case Plain(c) => Unescaped(c)
    case Letter(c) => Short(EscapeLetter(c).value)
    case Hex(code) => Escaped(Hex4(code))
  }

  function CharsOf(ps: seq<Piece>): (r: seq<Char>)
    ensures |r| == |ps| && forall i :: 0 <= i < |r| ==> r[i] == CharOf(ps[i])
  {
    if ps == [] then [] else [CharOf(ps[0])] + CharsOf(ps[1..])
  }

  lemma PieceIsChar(p: Piece)
    ensures IsChar(CharOf(p)) && CharText(CharOf(p)) == PieceText(p)
  {
    match p
    case Plain(c) =>
      AsciiText(c);
    case Letter(c) =>
    case Hex(code) =>
      HexDigitsReadBack(code);
  }

  lemma {:induction false} PiecesAreChars(ps: seq<Piece>)
    ensures AreChars(CharsOf(ps)) && CharsText(CharsOf(ps)) == PiecesText(ps)
  {
    hide PieceText, CharText, IsChar, CharOf;
    if ps != [] {
      PieceIsChar(ps[0]);
      PiecesAreChars(ps[1..]);
      assert CharsOf(ps)[1..] == CharsOf(ps[1..]);
      assert CharsOf(ps) == [CharsOf(ps)[0]] + CharsOf(ps)[1..];
    }
  }

  function CharsOfString(s: bytes): seq<Char> { CharsOf(Pieces(s)) }

  lemma StringIsJson(s: bytes)
    ensures AreChars(CharsOfString(s)) && StringText(CharsOfString(s)) == Quoted(s)
  {
    hide Pieces, PiecesText, CharsText;
    EncodeIsPieces(s);
    PiecesAreChars(Pieces(s));
  }

  lemma StringMeansItself(s: bytes)
    ensures IsWellFormed(s) ==> StringValue(CharsOfString(s)) == Some(s)
  {
    hide Pieces, PiecesText, CharsText, Decode, IsWellFormed, StringValue;
    EncodeIsPieces(s);
    PiecesAreChars(Pieces(s));
    CharsDecode(Encoding.Utf8, CharsOfString(s));
    RoundTripIffWellFormed(Encoding.Utf8, s);
  }

  // ---- trees ----------------------------------------------------------------------------------------------------

  function FormOf(n: int64): NumberForm { NumberForm(n < 0, Integers.Digits(Magnitude(n)), None, None) }

  lemma {:induction false} WholeHasNoLeadingZero(n: nat)
    ensures Integers.Digits(n) == [ZERO] || Integers.Digits(n)[0] != ZERO
  {
    NoLeadingZero(n);
  }

  lemma IntegerIsJson(n: int64)
    ensures IsPhrase(NumberPhrase(FormOf(n))) && FormText(FormOf(n)) == Show(n)
  {
    WholeHasNoLeadingZero(Magnitude(n));
    assert FormText(FormOf(n)) == (if n < 0 then [MINUS] else []) + Integers.Digits(Magnitude(n)) + [] + [];
  }

  /** A double as the number that is printed, or as null. */
  ghost function DecimalPhrase(d: Double, show: ShowDecimal): Phrase {
    if show(d).Some? && IsRfcNumber(show(d).value) then
      var f :| IsForm(f) && FormText(f) == show(d).value && (f.whole == [ZERO] || f.whole[0] != ZERO);
      NumberPhrase(f)
    else LiteralPhrase(NULL_TEXT)
  }

  lemma DecimalIsJson(d: Double, show: ShowDecimal)
    requires PrintsNumbers(Value.Decimal(d), show)
    ensures IsPhrase(DecimalPhrase(d, show)) && PhraseText(DecimalPhrase(d, show)) == DecimalText(d, show)
  {
    hide FormText;
  }

  /** The phrase that an encoder writes for a tree. */
  ghost function PhraseOf(v: Value, style: Style, indent: nat): Phrase
    decreases v, 1
  {
    match v
    case Null => LiteralPhrase(NULL_TEXT)
    case Bool(b) => LiteralPhrase(if b then TRUE_TEXT else FALSE_TEXT)
    case Int(n) => NumberPhrase(FormOf(n))
    case Decimal(d) => DecimalPhrase(d, style.show)
    case Str(s) => StringPhrase(CharsOfString(s))
    case Arr(items) => ArrayPhrase([], ItemsOf(items, style, indent))
    case Obj(ms) => ObjectPhrase([], PairsOf(ms, style, indent))
  }

  /** The last item has the line end before the bracket after it. */
  ghost function ItemsOf(items: seq<Value>, style: Style, indent: nat): (r: seq<Item>)
    ensures |r| == |items|
    decreases items, 0
  {
    if items == [] then []
    else
      var inner := Deeper(style, indent);
      var after := if |items| == 1 then Eol(style, indent) else [];
      [Item(Eol(style, inner), PhraseOf(items[0], style, inner), after)] + ItemsOf(items[1..], style, indent)
  }

  ghost function PairsOf(ms: seq<Member>, style: Style, indent: nat): (r: seq<Pair>)
    ensures |r| == |ms|
    decreases ms, 0
  {
    if ms == [] then []
    else
      assert ms[0].val < ms[0];
      var inner := Deeper(style, indent);
      var after := if |ms| == 1 then Eol(style, indent) else [];
      var item := Item(Gap(style), PhraseOf(ms[0].val, style, inner), after);
      [Pair(Eol(style, inner), CharsOfString(ms[0].key), [], item)] + PairsOf(ms[1..], style, indent)
  }

  lemma LineEndsAreSpaces(style: Style, indent: nat)
    ensures AreSpaces(Eol(style, indent)) && AreSpaces(Gap(style)) && AreSpaces([])
  {
    SpacesAreSpace(indent);
  }

  lemma {:induction false} TextIsPhrase(v: Value, style: Style, indent: nat)
    requires PrintsNumbers(v, style.show)
    ensures IsPhrase(PhraseOf(v, style, indent)) && PhraseText(PhraseOf(v, style, indent)) == Text(v, style, indent)
    decreases v, 1
  {
    hide ItemsOf, PairsOf, Encoders.ItemsText, MembersText, ItemListText, PairsText, Eol, FormOf, FormText, Show;
    hide DecimalPhrase, StringText, CharsOfString, Quoted, AreChars;
    match v
    case Int(n) => IntegerIsJson(n);
    case Decimal(d) => DecimalIsJson(d, style.show);
    case Str(s) => StringIsJson(s);
    case Arr(items) =>
      if items == [] {
        assert ItemsOf([], style, indent) == [];
      } else {
        ItemsArePhrases(items, style, indent);
      }
    case Obj(ms) =>
      if ms == [] {
        assert PairsOf([], style, indent) == [];
      } else {
        MembersArePhrases(ms, style, indent);
      }
    case _ =>
  }

  lemma JoinItem(e: bytes, t: bytes, c: bytes, more: bytes, o: bytes, close: bytes)
    ensures (e + t + []) + (c + (more + o + close)) == (e + t + c + more) + o + close
    ensures (e + t + o) + close == (e + t + [] + []) + o + close
  {
  }

  /** One item, as the grammar and as the encoder write it. */
  lemma ItemsOfStep(items: seq<Value>, style: Style, indent: nat)
    requires items != []
    ensures var (inner, all) := (Deeper(style, indent), ItemsOf(items, style, indent));
      var (e, o) := (Eol(style, inner), Eol(style, indent));
      var item := Item(e, PhraseOf(items[0], style, inner), if |items| == 1 then o else []);
      var t := Text(items[0], style, inner);
      && all == [item] + ItemsOf(items[1..], style, indent)
      && ItemListText(all) == ItemText(item) + (if |items| == 1 then [RBRACKET] else [COMMA] + ItemListText(all[1..]))
      && Encoders.ItemsText(items, style, inner)
         == if |items| == 1 then e + t + [] + [] else e + t + [COMMA] + Encoders.ItemsText(items[1..], style, inner)
  {
    hide PhraseOf, ItemText, Text, Eol;
  }

  lemma {:induction false} ItemsArePhrases(items: seq<Value>, style: Style, indent: nat)
    requires ItemsPrintNumbers(items, style.show) && items != []
    ensures forall i :: 0 <= i < |items| ==> IsItem(ItemsOf(items, style, indent)[i])
    ensures ItemListText(ItemsOf(items, style, indent))
         == Encoders.ItemsText(items, style, Deeper(style, indent)) + Eol(style, indent) + [RBRACKET]
    decreases items, 0
  {
    hide PhraseOf, PhraseText, IsPhrase, Text, Eol, AreSpaces, ItemsOf, ItemListText, Encoders.ItemsText;
    var inner := Deeper(style, indent);
    var e, o, t := Eol(style, inner), Eol(style, indent), Text(items[0], style, inner);
    LineEndsAreSpaces(style, inner);
    LineEndsAreSpaces(style, indent);
    TextIsPhrase(items[0], style, inner);
    ItemsOfStep(items, style, indent);
    if |items| > 1 {
      ItemsArePhrases(items[1..], style, indent);
      JoinItem(e, t, [COMMA], Encoders.ItemsText(items[1..], style, inner), o, [RBRACKET]);
      assert ItemsOf(items, style, indent)[1..] == ItemsOf(items[1..], style, indent);
    } else {
      JoinItem(e, t, [], [], o, [RBRACKET]);
    }
  }

  lemma JoinMember(
    e: bytes, q: bytes, colon: bytes, gap: bytes, t: bytes, c: bytes, more: bytes, o: bytes, close: bytes)
    ensures e + q + [] + colon + (gap + t + []) + (c + (more + o + close))
         == (e + (q + colon + gap) + t + c + more) + o + close
    ensures e + q + [] + colon + (gap + t + o) + close == (e + (q + colon + gap) + t + [] + []) + o + close
  {
  }

  lemma PairsOfStep(ms: seq<Member>, style: Style, indent: nat)
    requires ms != []
    ensures var (inner, all) := (Deeper(style, indent), PairsOf(ms, style, indent));
      var (e, o, gap) := (Eol(style, inner), Eol(style, indent), Gap(style));
      var item := Item(gap, PhraseOf(ms[0].val, style, inner), if |ms| == 1 then o else []);
      var pair := Pair(e, CharsOfString(ms[0].key), [], item);
      && all == [pair] + PairsOf(ms[1..], style, indent)
      && PairsText(all) == e + StringText(pair.key) + [] + [COLON] + ItemText(item)
                           + if |ms| == 1 then [RBRACE] else [COMMA] + PairsText(all[1..])
  {
    hide PhraseOf, ItemText, Eol, StringText, CharsOfString, Gap;
  }

  lemma MembersTextStep(ms: seq<Member>, style: Style, indent: nat)
    requires ms != []
    ensures MembersText(ms, style, indent)
         == Eol(style, indent) + (Quoted(ms[0].key) + [COLON] + Gap(style)) + Text(ms[0].val, style, indent)
            + (if |ms| == 1 then [] else [COMMA]) + (if |ms| == 1 then [] else MembersText(ms[1..], style, indent))
  {
    hide Text, Eol, Quoted, Gap;
  }

  lemma {:induction false} MembersArePhrases(ms: seq<Member>, style: Style, indent: nat)
    requires MembersPrintNumbers(ms, style.show) && ms != []
    ensures forall i :: 0 <= i < |ms| ==> IsPair(PairsOf(ms, style, indent)[i])
    ensures PairsText(PairsOf(ms, style, indent))
         == MembersText(ms, style, Deeper(style, indent)) + Eol(style, indent) + [RBRACE]
    decreases ms, 0
  {
    hide PhraseOf, PhraseText, IsPhrase, Text, Eol, AreSpaces, StringText, CharsOfString, Quoted, AreChars, Gap;
    hide PairsOf, PairsText, MembersText;
    assert ms[0].val < ms[0];
    var inner := Deeper(style, indent);
    var e, o, gap := Eol(style, inner), Eol(style, indent), Gap(style);
    var q, t := Quoted(ms[0].key), Text(ms[0].val, style, inner);
    LineEndsAreSpaces(style, inner);
    LineEndsAreSpaces(style, indent);
    StringIsJson(ms[0].key);
    TextIsPhrase(ms[0].val, style, inner);
    PairsOfStep(ms, style, indent);
    MembersTextStep(ms, style, inner);
    if |ms| > 1 {
      MembersArePhrases(ms[1..], style, indent);
      JoinMember(e, q, [COLON], gap, t, [COMMA], MembersText(ms[1..], style, inner), o, [RBRACE]);
      assert PairsOf(ms, style, indent)[1..] == PairsOf(ms[1..], style, indent);
    } else {
      JoinMember(e, q, [COLON], gap, t, [], [], o, [RBRACE]);
    }
  }

  // ---- meaning --------------------------------------------------------------------------------------------------

  lemma {:induction false} PhraseIsInteroperable(v: Value, style: Style, indent: nat)
    requires WellFormed(v) && HasUtf8Strings(v)
    ensures IsInteroperable(PhraseOf(v, style, indent))
    decreases v, 1
  {
    hide ItemsOf, PairsOf, StringValue, IsWellFormed, CharsOfString, Sorted;
    match v
    case Str(s) => StringMeansItself(s);
    case Arr(items) => ItemsAreInteroperable(items, style, indent);
    case Obj(ms) => MembersAreInteroperable(ms, style, indent);
    case _ =>
  }

  lemma DistinctNames(ps: seq<Pair>)
    requires forall i :: 0 <= i < |ps| ==> StringValue(ps[i].key).Some? && IsInteroperable(ps[i].item.val)
    requires forall i, j :: 0 <= i < j < |ps| ==> StringValue(ps[i].key) != StringValue(ps[j].key)
    ensures IsInteroperable(ObjectPhrase([], ps))
  {
    hide StringValue;
  }

  lemma {:induction false} ItemsAreInteroperable(items: seq<Value>, style: Style, indent: nat)
    requires forall i :: 0 <= i < |items| ==> WellFormed(items[i]) && HasUtf8Strings(items[i])
    ensures forall i :: 0 <= i < |items| ==> IsInteroperable(ItemsOf(items, style, indent)[i].val)
    decreases items, 0
  {
    hide PhraseOf, IsInteroperable, WellFormed, HasUtf8Strings, Eol;
    if items != [] {
      PhraseIsInteroperable(items[0], style, Deeper(style, indent));
      ItemsAreInteroperable(items[1..], style, indent);
      assert ItemsOf(items, style, indent)[1..] == ItemsOf(items[1..], style, indent);
    }
  }

  lemma {:induction false} PairsAt(ms: seq<Member>, style: Style, indent: nat, i: nat)
    requires i < |ms|
    ensures PairsOf(ms, style, indent)[i].key == CharsOfString(ms[i].key)
    ensures PairsOf(ms, style, indent)[i].item.val == PhraseOf(ms[i].val, style, Deeper(style, indent))
    decreases i
  {
    hide PhraseOf, CharsOfString, Eol, Gap;
    if i > 0 {
      PairsAt(ms[1..], style, indent, i - 1);
      assert PairsOf(ms, style, indent)[1..] == PairsOf(ms[1..], style, indent);
    }
  }

  lemma {:induction false} MembersAreInteroperable(ms: seq<Member>, style: Style, indent: nat)
    requires Sorted(ms) && forall i :: 0 <= i < |ms| ==>
      WellFormed(ms[i].val) && IsWellFormed(ms[i].key) && HasUtf8Strings(ms[i].val)
    ensures IsInteroperable(ObjectPhrase([], PairsOf(ms, style, indent)))
    decreases ms, 0
  {
    hide PhraseOf, IsInteroperable, WellFormed, HasUtf8Strings, IsWellFormed, StringValue;
    hide CharsOfString, PairsOf, Sorted, CompareBytes;
    var ps := PairsOf(ms, style, indent);
    forall i | 0 <= i < |ps|
      ensures StringValue(ps[i].key) == Some(ms[i].key) && IsInteroperable(ps[i].item.val)
    {
      assert ms[i].val < ms[i];
      PairsAt(ms, style, indent, i);
      StringMeansItself(ms[i].key);
      PhraseIsInteroperable(ms[i].val, style, Deeper(style, indent));
    }
    forall i, j | 0 <= i < j < |ps| ensures StringValue(ps[i].key) != StringValue(ps[j].key) {
      SortedPair(ms, i, j);
      CompareBytesSign(ms[i].key, ms[j].key);
    }
    DistinctNames(ps);
  }

  lemma IntegerFits(n: int64)
    ensures IsInteger(FormOf(n)) && Denoted(FormOf(n)) == n
  {
    NaturalOfDigits(Magnitude(n));
  }

  lemma {:induction false} PhraseIntegersFit(v: Value, style: Style, indent: nat)
    requires DecimalFree(v)
    ensures IntegersFit(PhraseOf(v, style, indent))
    decreases v, 1
  {
    hide ItemsOf, PairsOf, CharsOfString, FormOf, Denoted;
    match v
    case Int(n) => IntegerFits(n);
    case Arr(items) => ItemsFit(items, style, indent);
    case Obj(ms) =>
      forall i | 0 <= i < |ms| ensures IntegersFit(PairsOf(ms, style, indent)[i].item.val) {
        assert ms[i].val < ms[i];
        PairsAt(ms, style, indent, i);
        PhraseIntegersFit(ms[i].val, style, Deeper(style, indent));
      }
    case _ =>
  }

  lemma {:induction false} ItemsFit(items: seq<Value>, style: Style, indent: nat)
    requires AllDecimalFree(items)
    ensures forall i :: 0 <= i < |items| ==> IntegersFit(ItemsOf(items, style, indent)[i].val)
    decreases items, 0
  {
    hide PhraseOf, IntegersFit, DecimalFree, Eol;
    if items != [] {
      PhraseIntegersFit(items[0], style, Deeper(style, indent));
      ItemsFit(items[1..], style, indent);
      assert ItemsOf(items, style, indent)[1..] == ItemsOf(items[1..], style, indent);
    }
  }

  /** What an encoder writes for a tree without doubles is a JSON text of RFC 8259, and it describes that tree. */
  lemma EncodedIsText(v: Value, style: Style)
    requires WellFormed(v) && DecimalFree(v) && HasUtf8Strings(v)
    ensures Rfc8259.IsText(Text(v, style, 0), v)
  {
    hide Parse, Text, PhraseOf, IsPhrase, IsInteroperable, PhraseRead, PhraseText, WellFormed, HasUtf8Strings;
    hide Describes, IntegersFit;
    var p := PhraseOf(v, style, 0);
    var item := Item([], p, []);
    DecimalFreePrints(v, style.show);
    TextIsPhrase(v, style, 0);
    PhraseIsInteroperable(v, style, 0);
    PhraseIntegersFit(v, style, 0);
    assert ItemText(item) == Text(v, style, 0);
    DefaultParsesJson(item);
    ParserUndoesPrinter(v, style, DEFAULT_OPTIONS);
  }
}
