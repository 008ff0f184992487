/** The parser accepts every JSON text of RFC 8259 and returns the tree that the text describes. */
module Conformance {
  import opened Bytes
  import opened Json
  import opened Integers
  import opened Utf8
  import opened StringCodec
  import opened TokenPatterns
  import opened NumberGrammar
  import opened Tokenizing
  import opened ParserSpec
  import opened Grammar
  import opened GrammarTheorems
  import opened RoundTrip
  import opened Reprinting
  import opened Rfc8259

  // ---- strings --------------------------------------------------------------------------------------------------

  lemma CharIsPassedOver(c: Char, rest: bytes)
    requires IsChar(c)
    ensures StringBody(CharText(c) + rest) == Longer(StringBody(rest), |CharText(c)|)
  {
    match c
    case Unescaped(code) =>
      BytesOfCharacter(code);
      BodySkips(Utf8Of(code), rest);
    case Short(letter) =>
      assert (CharText(c) + rest)[2..] == rest;
    case Escaped(digits) =>
      assert (CharText(c) + rest)[2..] == digits + rest;
      assert HexValue(QUOTE).None? && HexValue(BACKSLASH).None?;
      BodySkips(digits, rest);
  }

  lemma BytesOfCharacter(code: nat)
    requires IsScalar(code) && code != QUOTE && code != BACKSLASH
    ensures forall i :: 0 <= i < |Utf8Of(code)| ==> Utf8Of(code)[i] != QUOTE && Utf8Of(code)[i] != BACKSLASH
  {
  }

  lemma {:induction false} BodyOfChars(cs: seq<Char>, rest: bytes)
    requires AreChars(cs)
    ensures StringBody(CharsText(cs) + ([QUOTE] + rest)) == Span(true, |CharsText(cs)| + 1)
  {
    hide CharText, IsChar;
    if cs == [] {
      assert [] + ([QUOTE] + rest) == [QUOTE] + rest;
    } else {
      var more := CharsText(cs[1..]) + ([QUOTE] + rest);
      assert CharsText(cs) + ([QUOTE] + rest) == CharText(cs[0]) + more;
      CharIsPassedOver(cs[0], more);
      BodyOfChars(cs[1..], rest);
    }
  }

  lemma StringIsToken(cs: seq<Char>, rest: bytes)
    requires AreChars(cs)
    ensures FirstToken(StringText(cs) + rest) == Token(StringText(cs), String, false)
  {
    hide StringBody, MatchOf, CharsText, FirstToken;
    BodyOfChars(cs, rest);
    var text := StringText(cs) + rest;
    assert text[1..] == CharsText(cs) + ([QUOTE] + rest);
    QuoteMatch(text);
    MatchedToken(text, MatchOf(text));
    assert text[..|StringText(cs)|] == StringText(cs);
  }

  /** The delete character, which `isprint` does not count among the printable ones. */
  const DEL: codepoint := 0x7F

  lemma DecodesCharacter(encoding: Encoding, code: codepoint, rest: bytes)
    requires IsChar(Unescaped(code)) && encoding != Cesu8
    ensures Decode(encoding, Utf8Of(code) + rest, 0) ==
      if encoding == Utf8Strict && code == DEL then None else Prepend(Utf8Of(code), Decode(encoding, rest, 0))
  {
    hide Decode, Utf8Of, WellFormedLength;
    var s := Utf8Of(code) + rest;
    var n := |Utf8Of(code)|;
    ScalarUnit(code, rest);
    LeadOfCharacter(code);
    LengthOfLead(s);
    DecodesLead(encoding, s);
    forall i | 0 <= i < n - 1 ensures IsContinuation(s[1..][i]) {
      CharacterBytes(s, i + 1);
    }
    DecodeContinuations(encoding, s[1..], n - 1);
    assert s[1..][n - 1..] == rest && [s[0]] + s[1..][..n - 1] == Utf8Of(code);
    PrependTwice([s[0]], s[1..][..n - 1], Decode(encoding, rest, 0));
  }

  lemma LeadOfCharacter(code: codepoint)
    requires IsChar(Unescaped(code))
    ensures Utf8Of(code)[0] != BACKSLASH
    ensures LeadLength(Utf8Of(code)[0]) == 1 ==> Utf8Of(code) == [code] && (IsPrint(Utf8Of(code)[0]) <==> code != DEL)
    ensures code == DEL ==> LeadLength(Utf8Of(code)[0]) == 1
  {
  }

  lemma LengthOfLead(s: bytes)
    requires WellFormedLength(s) > 0
    ensures LeadLength(s[0]) == WellFormedLength(s)
  {
  }

  lemma DecodesLead(encoding: Encoding, s: bytes)
    requires s != [] && s[0] != BACKSLASH && LeadLength(s[0]) > 0
    ensures Decode(encoding, s, 0) ==
      if encoding == Utf8Strict && LeadLength(s[0]) == 1 && !IsPrint(s[0]) then None
      else Prepend([s[0]], Decode(encoding, s[1..], LeadLength(s[0]) - 1))
  {
  }

  lemma DecodesShort(encoding: Encoding, letter: byte, rest: bytes)
    requires IsChar(Short(letter))
    ensures Decode(encoding, [BACKSLASH, letter] + rest, 0) == Prepend([ShortValue(letter)], Decode(encoding, rest, 0))
  {
    hide Decode;
    var s := [BACKSLASH, letter] + rest;
    DecodesEscape(encoding, s);
    assert s[2..] == rest;
  }

  lemma DecodesEscape(encoding: Encoding, s: bytes)
    requires s != [] && s[0] == BACKSLASH
    ensures Decode(encoding, s, 0) ==
      match Unescape(encoding, s)
      case None => None
      case Some(unit) => Prepend(unit.text, Decode(encoding, s[unit.length..], 0))
  {
    hide Unescape;
  }

  /** One \u escape, in front of anything. */
  lemma UnescapesDigits(encoding: Encoding, digits: digits4, rest: bytes)
    requires IsChar(Escaped(digits)) && encoding != Cesu8
    ensures var (s, unit) := ([BACKSLASH, LOWER_U] + digits + rest, UnitOf(digits));
      Unescape(encoding, s) ==
        if !IsSurrogate(unit) then Some(Escape(6, Utf8Of(unit)))
        else if |rest| < 6 || rest[0] != BACKSLASH || rest[1] != LOWER_U || FromHex4(rest[2..]).None? then None
        else
          match Combine(unit, FromHex4(rest[2..]).value)
          case None => None
          case Some(code) => Some(Escape(12, Utf8Of(code)))
  {
    hide Utf8Of, Combine;
    var s := [BACKSLASH, LOWER_U] + digits + rest;
    HexOfPrefix(digits, rest);
    assert s[2..] == digits + rest;
    if |rest| >= 6 {
      assert s[8..] == rest[2..] && s[6] == rest[0] && s[7] == rest[1];
    }
  }

  lemma HexOfPrefix(digits: digits4, rest: bytes)
    requires IsChar(Escaped(digits))
    ensures FromHex4(digits + rest) == Some(UnitOf(digits))
  {
    assert forall i :: 0 <= i < 4 ==> (digits + rest)[i] == digits[i];
  }

  lemma CharsTextStep(cs: seq<Char>)
    ensures CharsText(cs) == if cs == [] then [] else CharText(cs[0]) + CharsText(cs[1..])
  {
    hide CharText;
  }

  /** What follows a surrogate escape decides: its partner, or an error. */
  lemma AfterSurrogate(high: hex16, cs: seq<Char>)
    requires AreChars(cs)
    ensures var rest := CharsText(cs);
      if cs != [] && cs[0].Escaped? then
        |rest| >= 6 && rest[0] == BACKSLASH && rest[1] == LOWER_U && FromHex4(rest[2..]) == Some(UnitOf(cs[0].digits))
      else |rest| < 6 || rest[0] != BACKSLASH || rest[1] != LOWER_U
  {
    hide FromHex4, Utf8Of, CharsText, UnitOf;
    CharsTextStep(cs);
    if cs != [] {
      var rest, more := CharsText(cs), CharsText(cs[1..]);
      match cs[0]
      case Unescaped(code) =>
        LeadOfCharacter(code);
      case Short(letter) =>
      case Escaped(digits) =>
        assert rest[2..] == digits + more;
        HexOfPrefix(digits, more);
    }
  }

  predicate HasDel(cs: seq<Char>) { Unescaped(DEL) in cs }

  /** What the decoder makes of the characters of a string. */
  function ReadsAs(encoding: Encoding, cs: seq<Char>): Option<bytes> {
    if encoding == Utf8Strict && HasDel(cs) then None else StringValue(cs)
  }

  /** The decoder reads the characters of a string as RFC 8259 means them, and refuses unpaired surrogates; the strict
      one also refuses an unescaped DEL. */
  lemma {:induction false} CharsDecode(encoding: Encoding, cs: seq<Char>)
    requires AreChars(cs) && encoding != Cesu8
    ensures Decode(encoding, CharsText(cs), 0) == ReadsAs(encoding, cs)
    decreases |cs|
  {
    hide Decode, Utf8Of, Combine, Unescape, FromHex4;
    if cs == [] {
      DecodesNothing(encoding);
    } else {
      var rest := CharsText(cs[1..]);
      CharsDecode(encoding, cs[1..]);
      assert cs == [cs[0]] + cs[1..];
      match cs[0]
      case Unescaped(code) =>
        DecodesCharacter(encoding, code, rest);
      case Short(letter) =>
        DecodesShort(encoding, letter, rest);
      case Escaped(digits) =>
        EscapeDecodes(encoding, digits, cs[1..]);
    }
  }

  lemma DecodesNothing(encoding: Encoding)
    ensures Decode(encoding, [], 0) == Some([])
  {
  }

  lemma EscapeText(digits: digits4, cs: seq<Char>)
    ensures var (all, s) := ([Escaped(digits)] + cs, CharsText([Escaped(digits)] + cs));
      && all[1..] == cs
      && s == [BACKSLASH, LOWER_U] + digits + CharsText(cs) && s[6..] == CharsText(cs)
      && (cs != [] && cs[0].Escaped? ==> all[2..] == cs[1..] && s[12..] == CharsText(cs[1..]))
  {
    var all := [Escaped(digits)] + cs;
    assert all[1..] == cs;
    if cs != [] && cs[0].Escaped? {
      assert CharsText(cs) == [BACKSLASH, LOWER_U] + cs[0].digits + CharsText(cs[1..]);
      assert CharsText(cs)[6..] == CharsText(cs[1..]);
      assert CharsText(all)[12..] == CharsText(all)[6..][6..];
    }
  }

  lemma {:induction false} EscapeDecodes(encoding: Encoding, digits: digits4, cs: seq<Char>)
    requires IsChar(Escaped(digits)) && AreChars(cs) && encoding != Cesu8
    requires Decode(encoding, CharsText(cs), 0) == ReadsAs(encoding, cs)
    ensures Decode(encoding, CharsText([Escaped(digits)] + cs), 0) == ReadsAs(encoding, [Escaped(digits)] + cs)
    decreases |cs|, 0
  {
    hide Decode, Utf8Of, Combine, Unescape, FromHex4, CharsText, IsChar, UnitOf;
    var s := CharsText([Escaped(digits)] + cs);
    EscapeText(digits, cs);
    DecodesEscape(encoding, s);
    UnescapesDigits(encoding, digits, CharsText(cs));
    if IsSurrogate(UnitOf(digits)) {
      AfterSurrogate(UnitOf(digits), cs);
      if cs != [] && cs[0].Escaped? {
        CharsDecode(encoding, cs[1..]);
        assert cs == [cs[0]] + cs[1..];
      }
    }
  }

  // ---- tokens ---------------------------------------------------------------------------------------------------

  function LiteralKind(text: bytes): Kind { if text == NULL_TEXT then Kind.Null else Boolean }

  function StringToken(cs: seq<Char>): Token { Token(StringText(cs), String, false) }

  /** The derivation over tokens of a phrase. */
  function TreeOfPhrase(p: Phrase): Tree
    decreases p, 1
  {
    match p
    case LiteralPhrase(text) => Leaf(Token(text, LiteralKind(text), false))
    case NumberPhrase(form) => Leaf(Token(FormText(form), Number, false))
    case StringPhrase(chars) => Leaf(StringToken(chars))
    case ArrayPhrase(_, items) => ArrayTree(TreesOfItems(items), false)
    case ObjectPhrase(_, pairs) => ObjectTree(FieldsOfPairs(pairs), false)
  }

  function TreesOfItems(items: seq<Item>): (r: seq<Tree>)
    ensures |r| == |items| && forall i :: 0 <= i < |r| ==> r[i] == TreeOfPhrase(items[i].val)
    decreases items, 0
  {
    if items == [] then []
    else
      assert items[0].val < items[0];
      [TreeOfPhrase(items[0].val)] + TreesOfItems(items[1..])
  }

  function FieldsOfPairs(pairs: seq<Pair>): (r: seq<Field>)
    ensures |r| == |pairs|
    ensures forall i :: 0 <= i < |r| ==> r[i] == Field(StringToken(pairs[i].key), TreeOfPhrase(pairs[i].item.val))
    decreases pairs, 0
  {
    if pairs == [] then []
    else
      assert pairs[0].item.val < pairs[0].item < pairs[0];
      [Field(StringToken(pairs[0].key), TreeOfPhrase(pairs[0].item.val))] + FieldsOfPairs(pairs[1..])
  }

  /** The token of a phrase without inner structure. */
  lemma LeafIsToken(p: Phrase, rest: bytes)
    requires IsPhrase(p) && (p.LiteralPhrase? || p.NumberPhrase? || p.StringPhrase?) && Stops(rest)
    ensures TreeOfPhrase(p).Leaf? && FirstToken(PhraseText(p) + rest) == TreeOfPhrase(p).token
    ensures PhraseText(p) != [] && TreeOfPhrase(p).token.text == PhraseText(p)
  {
    hide FirstToken, FormText, StringText;
    match p
    case LiteralPhrase(text) =>
      LiteralToken(text, rest, LiteralKind(text));
    case NumberPhrase(form) =>
      FormIsToken(form, rest);
      StartsWithMinus(form);
    case StringPhrase(chars) =>
      StringIsToken(chars, rest);
      QuotedIsNotEmpty(chars);
  }

  lemma QuotedIsNotEmpty(cs: seq<Char>)
    ensures StringText(cs) != []
  {
  }

  /** Whitespace, or a comma, colon or closing bracket, ends a number. */
  lemma SpaceStops(ws: bytes, rest: bytes)
    requires AreSpaces(ws) && Stops(rest)
    ensures Stops(ws + rest)
  {
    if ws == [] {
      assert ws + rest == rest;
    }
  }

  /** The stream of a phrase is the yield of its derivation. */
  lemma {:induction false} PhraseStream(p: Phrase, rest: bytes, comments: bool)
    requires IsPhrase(p) && Stops(rest)
    ensures Stream(PhraseText(p) + rest, comments) == Flatten(TreeOfPhrase(p)) + Stream(rest, comments)
    decreases p, 2
  {
    hide Stream, ItemListText, PairsText, FlattenItems, FlattenFields, TreesOfItems, FieldsOfPairs, FormText;
    hide StringText;
    match p
    case ArrayPhrase(gap, items) =>
      ArrayPhraseStream(gap, items, rest, comments);
    case ObjectPhrase(gap, pairs) =>
      ObjectPhraseStream(gap, pairs, rest, comments);
    case _ =>
      LeafIsToken(p, rest);
      StreamStep(PhraseText(p), rest, TreeOfPhrase(p).token, comments);
  }

  lemma {:induction false} ArrayPhraseStream(gap: bytes, items: seq<Item>, rest: bytes, comments: bool)
    requires IsPhrase(ArrayPhrase(gap, items)) && Stops(rest)
    ensures Stream(PhraseText(ArrayPhrase(gap, items)) + rest, comments)
         == [OPEN_ARRAY] + FlattenItems(TreesOfItems(items), false) + Stream(rest, comments)
    decreases items, 1
  {
    hide Stream, ItemListText, FlattenItems, TreesOfItems, IsItem;
    var close := [RBRACKET] + rest;
    if items == [] {
      assert PhraseText(ArrayPhrase(gap, [])) + rest == [LBRACKET] + (gap + close);
      PunctStream(OPEN_ARRAY, gap + close, comments);
      SpacesVanish(gap, close, comments);
      PunctStream(CLOSE_ARRAY, rest, comments);
      NothingToFlatten();
    } else {
      assert PhraseText(ArrayPhrase(gap, items)) + rest == [LBRACKET] + (ItemListText(items) + rest);
      PunctStream(OPEN_ARRAY, ItemListText(items) + rest, comments);
      ItemsPhraseStream(items, rest, comments);
    }
  }

  lemma NothingToFlatten()
    ensures FlattenItems(TreesOfItems([]), false) == [CLOSE_ARRAY]
    ensures FlattenFields(FieldsOfPairs([]), false) == [CLOSE_OBJECT]
  {
  }

  lemma {:induction false} ItemStream(item: Item, rest: bytes, comments: bool)
    requires IsItem(item) && Stops(rest)
    ensures Stream(ItemText(item) + rest, comments) == Flatten(TreeOfPhrase(item.val)) + Stream(rest, comments)
    decreases item, 3
  {
    hide Stream, PhraseText, Flatten, TreeOfPhrase, IsPhrase;
    var text := PhraseText(item.val);
    assert ItemText(item) + rest == item.before + (text + (item.after + rest));
    SpacesVanish(item.before, text + (item.after + rest), comments);
    SpaceStops(item.after, rest);
    PhraseStream(item.val, item.after + rest, comments);
    SpacesVanish(item.after, rest, comments);
  }

  lemma ItemsTextStep(items: seq<Item>, rest: bytes)
    requires items != []
    ensures ItemListText(items) + rest
         == ItemText(items[0]) + if |items| == 1 then [RBRACKET] + rest else [COMMA] + (ItemListText(items[1..]) + rest)
  {
    hide ItemText;
    var more := if |items| == 1 then [] else ItemListText(items[1..]);
    Associate(ItemText(items[0]), if |items| == 1 then [RBRACKET] else [COMMA], more, rest);
    assert [RBRACKET] + [] == [RBRACKET] && [] + rest == rest;
  }

  lemma Associate(a: bytes, b: bytes, c: bytes, d: bytes)
    ensures a + (b + c) + d == a + (b + (c + d))
  {
  }

  lemma TreesOfItemsStep(items: seq<Item>)
    requires items != []
    ensures FlattenItems(TreesOfItems(items), false)
         == Flatten(TreeOfPhrase(items[0].val))
            + if |items| == 1 then [CLOSE_ARRAY] else [COMMA_TOKEN] + FlattenItems(TreesOfItems(items[1..]), false)
  {
    hide Flatten, TreeOfPhrase;
    assert TreesOfItems(items)[1..] == TreesOfItems(items[1..]);
  }

  lemma {:induction false} ItemsPhraseStream(items: seq<Item>, rest: bytes, comments: bool)
    requires items != [] && Stops(rest) && forall i :: 0 <= i < |items| ==> IsItem(items[i])
    ensures Stream(ItemListText(items) + rest, comments)
         == FlattenItems(TreesOfItems(items), false) + Stream(rest, comments)
    decreases items, 0
  {
    hide Stream, ItemText, ItemListText, FlattenItems, TreesOfItems, TreeOfPhrase, Flatten, IsItem;
    ItemsTextStep(items, rest);
    TreesOfItemsStep(items);
    if |items| == 1 {
      ItemStream(items[0], [RBRACKET] + rest, comments);
      PunctStream(CLOSE_ARRAY, rest, comments);
    } else {
      var more := ItemListText(items[1..]) + rest;
      ItemStream(items[0], [COMMA] + more, comments);
      PunctStream(COMMA_TOKEN, more, comments);
      ItemsPhraseStream(items[1..], rest, comments);
    }
  }

  lemma {:induction false} ObjectPhraseStream(gap: bytes, pairs: seq<Pair>, rest: bytes, comments: bool)
    requires IsPhrase(ObjectPhrase(gap, pairs)) && Stops(rest)
    ensures Stream(PhraseText(ObjectPhrase(gap, pairs)) + rest, comments)
         == [OPEN_OBJECT] + FlattenFields(FieldsOfPairs(pairs), false) + Stream(rest, comments)
    decreases pairs, 1
  {
    hide Stream, PairsText, FlattenFields, FieldsOfPairs, IsItem;
    var close := [RBRACE] + rest;
    if pairs == [] {
      assert PhraseText(ObjectPhrase(gap, [])) + rest == [LBRACE] + (gap + close);
      PunctStream(OPEN_OBJECT, gap + close, comments);
      SpacesVanish(gap, close, comments);
      PunctStream(CLOSE_OBJECT, rest, comments);
      NothingToFlatten();
    } else {
      assert PhraseText(ObjectPhrase(gap, pairs)) + rest == [LBRACE] + (PairsText(pairs) + rest);
      PunctStream(OPEN_OBJECT, PairsText(pairs) + rest, comments);
      PairsPhraseStream(pairs, rest, comments);
    }
  }

  ghost predicate IsPair(p: Pair) { AreSpaces(p.before) && AreChars(p.key) && AreSpaces(p.after) && IsItem(p.item) }

  /** A name, the colon, and what follows. */
  lemma NameStream(p: Pair, more: bytes, comments: bool)
    requires IsPair(p)
    ensures Stream(p.before + (StringText(p.key) + (p.after + ([COLON] + more))), comments)
         == [StringToken(p.key), COLON_TOKEN] + Stream(more, comments)
  {
    hide Stream, StringText, FirstToken;
    var colon := [COLON] + more;
    SpacesVanish(p.before, StringText(p.key) + (p.after + colon), comments);
    StringIsToken(p.key, p.after + colon);
    QuotedIsNotEmpty(p.key);
    StreamStep(StringText(p.key), p.after + colon, StringToken(p.key), comments);
    SpacesVanish(p.after, colon, comments);
    PunctStream(COLON_TOKEN, more, comments);
  }

  lemma PairsTextStep(pairs: seq<Pair>, rest: bytes)
    requires pairs != []
    ensures var p := pairs[0];
      var end := if |pairs| == 1 then [RBRACE] + rest else [COMMA] + (PairsText(pairs[1..]) + rest);
      PairsText(pairs) + rest == p.before + (StringText(p.key) + (p.after + ([COLON] + (ItemText(p.item) + end))))
  {
    hide ItemText, StringText, PairsText;
    var p := pairs[0];
    var more := if |pairs| == 1 then [] else PairsText(pairs[1..]);
    var end := if |pairs| == 1 then [RBRACE] else [COMMA] + more;
    PairsTextUnfold(pairs);
    AssociateEnd([COMMA], more, rest);
    AssociateEnd(p.before + StringText(p.key) + p.after + [COLON] + ItemText(p.item), end, rest);
    Regroup(p.before, StringText(p.key), p.after, [COLON], ItemText(p.item), end + rest);
  }

  lemma PairsTextUnfold(pairs: seq<Pair>)
    requires pairs != []
    ensures var p := pairs[0];
      PairsText(pairs) == p.before + StringText(p.key) + p.after + [COLON] + ItemText(p.item)
                          + if |pairs| == 1 then [RBRACE] else [COMMA] + PairsText(pairs[1..])
  {
    hide ItemText, StringText;
  }

  lemma AssociateEnd(a: bytes, b: bytes, c: bytes)
    ensures a + b + c == a + (b + c)
  {
  }

  lemma FieldsOfPairsStep(pairs: seq<Pair>)
    requires pairs != []
    ensures FlattenFields(FieldsOfPairs(pairs), false)
         == [StringToken(pairs[0].key), COLON_TOKEN] + Flatten(TreeOfPhrase(pairs[0].item.val))
            + if |pairs| == 1 then [CLOSE_OBJECT] else [COMMA_TOKEN] + FlattenFields(FieldsOfPairs(pairs[1..]), false)
  {
    hide Flatten, TreeOfPhrase, StringText;
    assert FieldsOfPairs(pairs)[1..] == FieldsOfPairs(pairs[1..]);
  }

  lemma {:induction false} PairsPhraseStream(pairs: seq<Pair>, rest: bytes, comments: bool)
    requires pairs != [] && Stops(rest) && forall i :: 0 <= i < |pairs| ==> IsPair(pairs[i])
    ensures Stream(PairsText(pairs) + rest, comments)
         == FlattenFields(FieldsOfPairs(pairs), false) + Stream(rest, comments)
    decreases pairs, 0
  {
    hide Stream, ItemText, PairsText, FlattenFields, FieldsOfPairs, TreeOfPhrase, Flatten, IsItem, StringText;
    var p := pairs[0];
    assert p.item < pairs[0];
    PairsTextStep(pairs, rest);
    FieldsOfPairsStep(pairs);
    if |pairs| == 1 {
      NameStream(p, ItemText(p.item) + ([RBRACE] + rest), comments);
      ItemStream(p.item, [RBRACE] + rest, comments);
      PunctStream(CLOSE_OBJECT, rest, comments);
    } else {
      var more := PairsText(pairs[1..]) + rest;
      NameStream(p, ItemText(p.item) + ([COMMA] + more), comments);
      ItemStream(p.item, [COMMA] + more, comments);
      PunctStream(COMMA_TOKEN, more, comments);
      PairsPhraseStream(pairs[1..], rest, comments);
    }
  }

  // ---- numbers --------------------------------------------------------------------------------------------------

  lemma DecimalMarks(f: NumberForm)
    requires IsForm(f)
    ensures IsDecimalLike(FormText(f)) <==> !IsInteger(f)
  {
    var head := (if f.minus then [MINUS] else []) + f.whole;
    var s := FormText(f);
    assert s[..|head|] == head;
    assert forall i :: 0 <= i < |head| ==> s[i] == head[i];
    if f.fraction.Some? {
      assert s[|head|] == DOT;
    } else if f.exponent.Some? {
      assert s[|head|] == f.exponent.value.mark;
    }
  }

  /** `strtoul` on an integer: modulo 2^64 below 2^64, and all bits beyond. */
  lemma StrtoulOfForm(f: NumberForm)
    requires IsForm(f) && IsInteger(f)
    ensures Strtoul(FormText(f)) ==
      if Natural(f.whole) >= TWO_TO_THE_64 then TWO_TO_THE_64 - 1
      else if f.minus && Natural(f.whole) > 0 then TWO_TO_THE_64 - Natural(f.whole)
      else Natural(f.whole)
  {
    hide Natural;
    var s := FormText(f);
    assert s == (if f.minus then [MINUS] else []) + f.whole;
    assert f.minus ==> s[0] == MINUS && s[1..] == f.whole;
    assert !f.minus ==> s == f.whole && s[0] != MINUS;
  }

  function NumberRead(f: NumberForm): Value { NumberValue(FormText(f)) }

  /** An integer is read as what it denotes exactly if that fits 64 bits; otherwise modulo 2^64, or, from a magnitude of
      2^64 on, as -1. Any other number is the double of its text. */
  lemma NumbersRead(f: NumberForm)
    requires IsForm(f)
    ensures !IsInteger(f) ==> NumberRead(f) == Value.Decimal(Read(FormText(f)))
    ensures IsInteger(f) ==>
      && NumberRead(f).Int?
      && (NumberRead(f).n == Denoted(f) <==> FitsInt64(Denoted(f)))
      && (Natural(f.whole) < TWO_TO_THE_64 ==> (NumberRead(f).n - Denoted(f)) % TWO_TO_THE_64 == 0)
      && (Natural(f.whole) >= TWO_TO_THE_64 ==> NumberRead(f).n == -1)
  {
    hide FormText, Natural, Strtoul, IsDecimalLike;
    DecimalMarks(f);
    if IsInteger(f) {
      StrtoulOfForm(f);
    }
  }

  /** For example, -9223372036854775809 is read as 9223372036854775807. */
  lemma TooSmallIntegerWraps()
    ensures var f := NumberForm(true, Integers.Digits(0x8000_0000_0000_0001), None, None);
      IsForm(f) && Denoted(f) == INT64_MIN - 1 && NumberRead(f) == Int(INT64_MAX)
  {
    hide Integers.Digits, Strtoul, FormText, IsDecimalLike;
    var f := NumberForm(true, Integers.Digits(0x8000_0000_0000_0001), None, None);
    NaturalOfDigits(0x8000_0000_0000_0001);
    DecimalMarks(f);
    StrtoulOfForm(f);
  }

  // ---- what the parser makes of a phrase ------------------------------------------------------------------------

  function TextValue(cs: seq<Char>): bytes {
    match StringValue(cs)
    case Some(s) => s
    case None => []
  }

  /** The value that the parser returns for a phrase. */
  function PhraseRead(p: Phrase): Value
    decreases p, 1
  {
    match p
    case LiteralPhrase(text) => if text == NULL_TEXT then Value.Null else Bool(text == TRUE_TEXT)
    case NumberPhrase(form) => NumberRead(form)
    case StringPhrase(chars) => Str(TextValue(chars))
    case ArrayPhrase(_, items) => Arr(ItemsRead(items))
    case ObjectPhrase(_, pairs) => Obj(PairsRead(pairs, []))
  }

  function ItemsRead(items: seq<Item>): (r: seq<Value>)
    ensures |r| == |items|
    decreases items, 0
  {
    if items == [] then []
    else
      assert items[0].val < items[0];
      [PhraseRead(items[0].val)] + ItemsRead(items[1..])
  }

  function PairsRead(pairs: seq<Pair>, members: seq<Member>): seq<Member>
    decreases pairs, 0
  {
    if pairs == [] then members
    else
      assert pairs[0].item.val < pairs[0].item < pairs[0];
      PairsRead(pairs[1..], Put(members, TextValue(pairs[0].key), PhraseRead(pairs[0].item.val)))
  }

  lemma {:induction false} ItemsReadAt(items: seq<Item>, i: nat)
    requires i < |items|
    ensures ItemsRead(items)[i] == PhraseRead(items[i].val)
  {
    hide PhraseRead;
    if i > 0 {
      ItemsReadAt(items[1..], i - 1);
    }
  }

  lemma {:induction false} PairsReadSorted(pairs: seq<Pair>, members: seq<Member>)
    requires Sorted(members)
    ensures Sorted(PairsRead(pairs, members))
    decreases |pairs|
  {
    hide PhraseRead, TextValue, Sorted, Put;
    if pairs != [] {
      PutSorted(members, TextValue(pairs[0].key), PhraseRead(pairs[0].item.val));
      PairsReadSorted(pairs[1..], Put(members, TextValue(pairs[0].key), PhraseRead(pairs[0].item.val)));
    }
  }

  /** A key that no pair names keeps what it had. */
  lemma {:induction false} PairsReadOther(pairs: seq<Pair>, members: seq<Member>, k: bytes)
    requires forall i :: 0 <= i < |pairs| ==> TextValue(pairs[i].key) != k
    ensures Find(PairsRead(pairs, members), k) == Find(members, k)
    decreases |pairs|
  {
    hide PhraseRead, TextValue, Find, Put;
    if pairs != [] {
      var name, v := TextValue(pairs[0].key), PhraseRead(pairs[0].item.val);
      FindPut(members, name, v, k);
      PairsReadOther(pairs[1..], Put(members, name, v), k);
    }
  }

  ghost predicate HasUniqueNames(pairs: seq<Pair>) {
    forall i, j :: 0 <= i < j < |pairs| ==> TextValue(pairs[i].key) != TextValue(pairs[j].key)
  }

  lemma {:induction false} PairsReadAt(pairs: seq<Pair>, members: seq<Member>, i: nat)
    requires HasUniqueNames(pairs) && i < |pairs|
    ensures Find(PairsRead(pairs, members), TextValue(pairs[i].key)) == Some(PhraseRead(pairs[i].item.val))
    decreases |pairs|
  {
    hide PhraseRead, TextValue, Find, Put;
    var name, v := TextValue(pairs[0].key), PhraseRead(pairs[0].item.val);
    if i == 0 {
      FindPut(members, name, v, name);
      PairsReadOther(pairs[1..], Put(members, name, v), name);
    } else {
      PairsReadAt(pairs[1..], Put(members, name, v), i - 1);
    }
  }

  /** The members of a tree that an object phrase describes, or of the one that is read, are those of its pairs. */
  lemma PairsReadNames(pairs: seq<Pair>, k: bytes)
    requires HasUniqueNames(pairs)
    ensures Find(PairsRead(pairs, []), k).Some? <==> exists i :: 0 <= i < |pairs| && TextValue(pairs[i].key) == k
  {
    hide PhraseRead, TextValue, Find;
    if i :| 0 <= i < |pairs| && TextValue(pairs[i].key) == k {
      PairsReadAt(pairs, [], i);
    } else {
      PairsReadOther(pairs, [], k);
      FindNothing(k);
    }
  }

  lemma InteroperablePairs(pairs: seq<Pair>, gap: bytes)
    requires IsInteroperable(ObjectPhrase(gap, pairs))
    ensures HasUniqueNames(pairs)
    ensures forall i :: 0 <= i < |pairs| ==>
      StringValue(pairs[i].key) == Some(TextValue(pairs[i].key)) && IsInteroperable(pairs[i].item.val)
  {
    hide StringValue;
    forall i, j | 0 <= i < j < |pairs| ensures TextValue(pairs[i].key) != TextValue(pairs[j].key) {
      assert StringValue(pairs[i].key) != StringValue(pairs[j].key);
    }
  }

  /** A phrase describes at most one tree, and it can only be the one that the parser returns. */
  lemma {:induction false} DescribedIsRead(p: Phrase, v: Value)
    requires IsPhrase(p) && IsInteroperable(p) && Describes(p, v)
    ensures v == PhraseRead(p)
    decreases p, 1
  {
    hide StringValue, ItemsRead, PairsRead, FormText, NumberValue, Natural, Sorted;
    match p
    case NumberPhrase(f) =>
      NumbersRead(f);
    case ArrayPhrase(_, items) =>
      forall i | 0 <= i < |items| ensures v.items[i] == ItemsRead(items)[i] {
        assert items[i].val < items[i];
        DescribedIsRead(items[i].val, v.items[i]);
        ItemsReadAt(items, i);
      }
    case ObjectPhrase(gap, pairs) =>
      ObjectIsRead(pairs, gap, v.members);
    case _ =>
  }

  lemma {:induction false} ObjectIsRead(pairs: seq<Pair>, gap: bytes, ms: seq<Member>)
    requires IsPhrase(ObjectPhrase(gap, pairs)) && IsInteroperable(ObjectPhrase(gap, pairs))
    requires Describes(ObjectPhrase(gap, pairs), Obj(ms))
    ensures ms == PairsRead(pairs, [])
    decreases pairs, 0
  {
    hide StringValue, PairsRead, PhraseRead, IsPhrase, IsInteroperable, Sorted, Find, TextValue;
    InteroperablePairs(pairs, gap);
    assert Sorted([]) by { NothingSorted(); }
    PairsReadSorted(pairs, []);
    forall k ensures Find(ms, k) == Find(PairsRead(pairs, []), k) {
      PairsReadNames(pairs, k);
      if Find(ms, k).Some? {
        MemberIsNamed(pairs, ms, k);
      }
      if i :| 0 <= i < |pairs| && TextValue(pairs[i].key) == k {
        assert HasMember(ms, pairs[i]);
        assert pairs[i].item.val < pairs[i].item < pairs[i];
        assert IsPhrase(pairs[i].item.val) by { PairIsPhrase(pairs, gap, i); }
        DescribedIsRead(pairs[i].item.val, Find(ms, k).value);
        PairsReadAt(pairs, [], i);
      }
    }
    SameLookups(ms, PairsRead(pairs, []));
  }

  lemma MemberIsNamed(pairs: seq<Pair>, ms: seq<Member>, k: bytes)
    requires Find(ms, k).Some? && forall j :: 0 <= j < |ms| ==> HasName(pairs, ms[j].key)
    ensures exists i :: 0 <= i < |pairs| && TextValue(pairs[i].key) == k
  {
    hide StringValue;
    var j := FoundIsMember(ms, k);
    var i :| 0 <= i < |pairs| && StringValue(pairs[i].key) == Some(ms[j].key);
    assert TextValue(pairs[i].key) == k;
  }

  lemma NothingSorted()
    ensures Sorted([])
  {
  }

  lemma PairIsPhrase(pairs: seq<Pair>, gap: bytes, i: nat)
    requires IsPhrase(ObjectPhrase(gap, pairs)) && i < |pairs|
    ensures IsPhrase(pairs[i].item.val) && AreChars(pairs[i].key)
  {
  }

  /** The tree that the parser returns is the one that the phrase describes exactly if its integers fit. */
  lemma {:induction false} ReadIsDescribed(p: Phrase)
    requires IsPhrase(p) && IsInteroperable(p)
    ensures Describes(p, PhraseRead(p)) <==> IntegersFit(p)
    decreases p, 1
  {
    hide StringValue, ItemsRead, PairsRead, FormText, NumberValue, Natural, Sorted;
    match p
    case NumberPhrase(f) =>
      NumbersRead(f);
    case ArrayPhrase(_, items) =>
      forall i | 0 <= i < |items|
        ensures Describes(items[i].val, ItemsRead(items)[i]) <==> IntegersFit(items[i].val)
      {
        assert items[i].val < items[i];
        ReadIsDescribed(items[i].val);
        ItemsReadAt(items, i);
      }
    case ObjectPhrase(gap, pairs) =>
      PairsAreDescribed(pairs, gap);
    case _ =>
  }

  lemma {:induction false} PairsAreDescribed(pairs: seq<Pair>, gap: bytes)
    requires IsPhrase(ObjectPhrase(gap, pairs)) && IsInteroperable(ObjectPhrase(gap, pairs))
    ensures Describes(ObjectPhrase(gap, pairs), Obj(PairsRead(pairs, []))) <==> IntegersFit(ObjectPhrase(gap, pairs))
    decreases pairs, 0
  {
    hide StringValue, PairsRead, PhraseRead, IsPhrase, IsInteroperable, Sorted, Find, TextValue;
    var ms := PairsRead(pairs, []);
    InteroperablePairs(pairs, gap);
    assert Sorted([]) by { NothingSorted(); }
    PairsReadSorted(pairs, []);
    forall i | 0 <= i < |pairs| ensures HasMember(ms, pairs[i]) <==> IntegersFit(pairs[i].item.val) {
      assert pairs[i].item.val < pairs[i].item < pairs[i];
      assert IsPhrase(pairs[i].item.val) by { PairIsPhrase(pairs, gap, i); }
      ReadIsDescribed(pairs[i].item.val);
      PairsReadAt(pairs, [], i);
    }
    forall j | 0 <= j < |ms| ensures HasName(pairs, ms[j].key) {
      FindAt(ms, j);
      PairsReadNames(pairs, ms[j].key);
      var i :| 0 <= i < |pairs| && TextValue(pairs[i].key) == ms[j].key;
      assert StringValue(pairs[i].key) == Some(ms[j].key);
    }
  }

  // ---- the derivation of a phrase, under any rules --------------------------------------------------------------

  lemma StringMeans(cs: seq<Char>, rules: Rules)
    requires AreChars(cs) && rules.encoding != Cesu8
    ensures Decoded(StringToken(cs), rules) == ReadsAs(rules.encoding, cs)
  {
    hide Decode, CharsText, StringValue;
    CharsDecode(rules.encoding, cs);
    assert Inner(StringText(cs)) == CharsText(cs);
  }

  /** What the strict checks let through: no number that the check of the first byte gets wrong, and, under strict
      UTF-8, no unescaped DEL. */
  ghost predicate IsAdmitted(p: Phrase, rules: Rules)
    decreases p
  {
    match p
    case NumberPhrase(f) => rules.strictNumbers ==> !IsMisjudged(FormText(f))
    case StringPhrase(chars) => rules.encoding == Utf8Strict ==> !HasDel(chars)
    case ArrayPhrase(_, items) => forall i :: 0 <= i < |items| ==> IsAdmitted(items[i].val, rules)
    case ObjectPhrase(_, pairs) => forall i :: 0 <= i < |pairs| ==>
      (rules.encoding == Utf8Strict ==> !HasDel(pairs[i].key)) && IsAdmitted(pairs[i].item.val, rules)
    case _ => true
  }

  /** On numbers of RFC 8259 the strict check fails exactly where it is wrong. */
  lemma MisjudgedIsRefused(f: NumberForm)
    requires IsPhrase(NumberPhrase(f))
    ensures HasLeadingZero(FormText(f)) <==> IsMisjudged(FormText(f))
  {
    hide FormText, IsMisjudged, HasLeadingZero;
    assert IsNumber(FormText(f)) && IsRfcNumber(FormText(f));
    StrictJudgement(FormText(f));
  }

  /** The derivation of an admitted phrase is valid under the rules, and it means what is read. */
  lemma {:induction false} PhraseMeans(p: Phrase, rules: Rules)
    requires IsPhrase(p) && IsInteroperable(p) && IsAdmitted(p, rules) && rules.encoding != Cesu8
    ensures IsValue(TreeOfPhrase(p), rules) && Meaning(TreeOfPhrase(p), rules) == PhraseRead(p)
    decreases p, 1
  {
    hide TreesOfItems, FieldsOfPairs, ItemMeanings, FieldMeanings, ItemsRead, PairsRead, NumberValue, Decoded;
    hide StringValue, StringText, FormText, HasLeadingZero, IsMisjudged, HasDel;
    match p
    case NumberPhrase(f) =>
      MisjudgedIsRefused(f);
    case StringPhrase(chars) =>
      StringMeans(chars, rules);
    case ArrayPhrase(_, items) =>
      ItemsMean(items, rules);
    case ObjectPhrase(gap, pairs) =>
      InteroperablePairs(pairs, gap);
      PairsMean(pairs, rules);
      PairsBuild(pairs, rules, []);
    case _ =>
  }

  lemma {:induction false} ItemsMean(items: seq<Item>, rules: Rules)
    requires rules.encoding != Cesu8
    requires forall i :: 0 <= i < |items| ==>
      IsPhrase(items[i].val) && IsInteroperable(items[i].val) && IsAdmitted(items[i].val, rules)
    ensures forall i :: 0 <= i < |items| ==> IsValue(TreesOfItems(items)[i], rules)
    ensures ItemMeanings(TreesOfItems(items), rules) == ItemsRead(items)
    decreases items, 0
  {
    hide IsPhrase, IsInteroperable, IsAdmitted, IsValue, TreeOfPhrase, Meaning, PhraseRead;
    if items != [] {
      assert items[0].val < items[0];
      PhraseMeans(items[0].val, rules);
      ItemsMean(items[1..], rules);
      assert TreesOfItems(items)[1..] == TreesOfItems(items[1..]);
    }
  }

  ghost predicate ArePairs(pairs: seq<Pair>, rules: Rules) {
    forall i :: 0 <= i < |pairs| ==>
      && AreChars(pairs[i].key) && StringValue(pairs[i].key).Some?
      && (rules.encoding == Utf8Strict ==> !HasDel(pairs[i].key))
      && IsPhrase(pairs[i].item.val) && IsInteroperable(pairs[i].item.val) && IsAdmitted(pairs[i].item.val, rules)
  }

  lemma {:induction false} PairsMean(pairs: seq<Pair>, rules: Rules)
    requires rules.encoding != Cesu8 && ArePairs(pairs, rules) && HasUniqueNames(pairs)
    ensures var fs := FieldsOfPairs(pairs);
      && (forall i :: 0 <= i < |fs| ==> IsKey(fs[i], rules) && IsValue(fs[i].val, rules))
      && DistinctKeys(fs, rules)
    ensures forall i :: 0 <= i < |pairs| ==>
      && Key(FieldsOfPairs(pairs)[i], rules) == TextValue(pairs[i].key)
      && Meaning(FieldsOfPairs(pairs)[i].val, rules) == PhraseRead(pairs[i].item.val)
    decreases pairs, 0
  {
    hide Decoded, StringValue, IsPhrase, IsInteroperable, IsAdmitted, IsValue, TreeOfPhrase, Meaning, PhraseRead;
    hide StringText, HasDel;
    var fs := FieldsOfPairs(pairs);
    forall i | 0 <= i < |fs|
      ensures IsKey(fs[i], rules) && IsValue(fs[i].val, rules)
      ensures Key(fs[i], rules) == TextValue(pairs[i].key)
      ensures Meaning(fs[i].val, rules) == PhraseRead(pairs[i].item.val)
    {
      assert pairs[i].item.val < pairs[i].item < pairs[i];
      StringMeans(pairs[i].key, rules);
      PhraseMeans(pairs[i].item.val, rules);
    }
  }

  lemma {:induction false} PairsBuild(pairs: seq<Pair>, rules: Rules, members: seq<Member>)
    requires forall i :: 0 <= i < |pairs| ==>
      && Key(FieldsOfPairs(pairs)[i], rules) == TextValue(pairs[i].key)
      && Meaning(FieldsOfPairs(pairs)[i].val, rules) == PhraseRead(pairs[i].item.val)
    ensures FieldMeanings(FieldsOfPairs(pairs), rules, members) == PairsRead(pairs, members)
    decreases |pairs|
  {
    hide Key, Meaning, TextValue, PhraseRead, TreeOfPhrase, Put, StringText;
    if pairs != [] {
      var fs := FieldsOfPairs(pairs);
      assert fs[1..] == FieldsOfPairs(pairs[1..]);
      PairsBuild(pairs[1..], rules, Put(members, TextValue(pairs[0].key), PhraseRead(pairs[0].item.val)));
    }
  }

  // ---- acceptance -----------------------------------------------------------------------------------------------

  ghost predicate MeetsDemands(v: Value, rules: Rules) {
    && (rules.requireDocument ==> IsContainer(v))
    && (rules.maxDepth > 0 ==> Depth(v) < rules.maxDepth)
  }

  lemma ItemIsParsed(item: Item, opts: Options)
    requires IsItem(item) && IsInteroperable(item.val) && IsAdmitted(item.val, opts.rules)
    requires opts.failureMode != Ignore && opts.rules.encoding != Cesu8
    requires MeetsDemands(PhraseRead(item.val), opts.rules)
    ensures Parse(ItemText(item), opts) == Returned(PhraseRead(item.val))
  {
    hide Parse, Stream, ItemText, IsValue, Meaning, Flatten, TreeOfPhrase, Depth, IsPhrase, IsInteroperable, PhraseRead;
    hide IsAdmitted;
    var v, comments := PhraseRead(item.val), opts.rules.comments;
    var text := ItemText(item);
    ItemStream(item, [], comments);
    EmptyStream(comments);
    assert text + [] == text;
    PhraseMeans(item.val, opts.rules);
    assert Derives(TreeOfPhrase(item.val), Stream([], comments), text, opts.rules, v);
    ParseIffGrammar(text, opts, v);
  }

  lemma {:induction false} EverythingIsAdmitted(p: Phrase, rules: Rules)
    requires !rules.strictNumbers && rules.encoding != Utf8Strict
    ensures IsAdmitted(p, rules)
    decreases p
  {
    match p
    case ArrayPhrase(_, items) =>
      forall i | 0 <= i < |items| ensures IsAdmitted(items[i].val, rules) {
        assert items[i].val < items[i];
        EverythingIsAdmitted(items[i].val, rules);
      }
    case ObjectPhrase(_, pairs) =>
      forall i | 0 <= i < |pairs| ensures IsAdmitted(pairs[i].item.val, rules) {
        assert pairs[i].item.val < pairs[i].item < pairs[i];
        EverythingIsAdmitted(pairs[i].item.val, rules);
      }
    case _ =>
  }

  /** Every JSON text whose names are unique, whose surrogates are paired and whose integers fit 64 bits is accepted,
      and the tree that it describes is returned, under all rules that read UTF-8 without the strict checks and whose
      demands on the root and on the depth it meets. */
  lemma TextIsParsed(text: bytes, v: Value, opts: Options)
    requires IsText(text, v) && MeetsDemands(v, opts.rules)
    requires opts.failureMode != Ignore && opts.rules.encoding == Encoding.Utf8 && !opts.rules.strictNumbers
    ensures Parse(text, opts) == Returned(v)
  {
    hide Parse, ItemText, IsPhrase, IsInteroperable, Describes, IsAdmitted, MeetsDemands, PhraseRead;
    var item :| IsItem(item) && ItemText(item) == text && IsInteroperable(item.val) && Describes(item.val, v);
    DescribedIsRead(item.val, v);
    EverythingIsAdmitted(item.val, opts.rules);
    ItemIsParsed(item, opts);
  }

  /** Without the condition on integers a text is accepted all the same, but what is returned is what the text describes
      exactly if its integers fit. */
  lemma DefaultParsesJson(item: Item)
    requires IsItem(item) && IsInteroperable(item.val)
    ensures Parse(ItemText(item), DEFAULT_OPTIONS) == Returned(PhraseRead(item.val))
    ensures Describes(item.val, PhraseRead(item.val)) <==> IntegersFit(item.val)
    ensures (exists v :: Describes(item.val, v)) <==> IntegersFit(item.val)
  {
    hide Parse, ItemText, IsPhrase, IsInteroperable, Describes, IsAdmitted, PhraseRead, IntegersFit;
    EverythingIsAdmitted(item.val, DEFAULT_OPTIONS.rules);
    ItemIsParsed(item, DEFAULT_OPTIONS);
    ReadIsDescribed(item.val);
    if v :| Describes(item.val, v) {
      DescribedIsRead(item.val, v);
    }
  }

  /** So the default options parse all of JSON. */
  lemma DefaultParsesText(text: bytes, v: Value)
    requires IsText(text, v)
    ensures Parse(text, DEFAULT_OPTIONS) == Returned(v)
  {
    hide Parse, IsText;
    TextIsParsed(text, v, DEFAULT_OPTIONS);
  }
}
