/** What the parser accepts beyond RFC 8259 is comments, trailing commas, padded numbers, control characters in strings,
    malformed UTF-8 and NUL bytes. An accepted text without these is a JSON text. */
module Acceptance {
  import opened Bytes
  import opened Json
  import opened Utf8
  import opened StringCodec
  import opened TokenPatterns
  import opened NumberGrammar
  import opened Tokenizing
  import opened ParserSpec
  import opened Grammar
  import opened GrammarTheorems
  import opened RoundTrip
  import opened Reprinting
  import opened Rfc8259
  import opened Conformance
  import opened StrictConformance

  /** No comment, no run of NUL bytes, no padded number, and no raw control character in a string. */
  predicate IsPlainToken(t: Token) {
    && t.kind != Comment && !AllNul(t.text)
    && (t.kind == Number ==> !IsPadded(t.text))
    && (t.kind == String ==> forall i :: 0 <= i < |t.text| ==> t.text[i] >= 0x20)
  }

  ghost predicate ArePlain(ts: seq<Token>) { forall i :: 0 <= i < |ts| ==> IsPlainToken(ts[i]) }

  /** No comma directly before a closing bracket or brace. */
  ghost predicate HasNoTrailingComma(ts: seq<Token>) {
    forall i :: 0 <= i < |ts| - 1 && ts[i] == COMMA_TOKEN ==> !IsClosing(ts[i + 1])
  }

  predicate IsClosing(t: Token) { t == CLOSE_ARRAY || t == CLOSE_OBJECT }

  /** Well-formed UTF-8 with nothing among its tokens that RFC 8259 does not know. */
  ghost predicate IsPlainText(text: bytes) {
    IsWellFormed(text) && ArePlain(Stream(text, false)) && HasNoTrailingComma(Stream(text, false))
  }

  // ---- strings --------------------------------------------------------------------------------------------------

  lemma {:induction false} BodyOfPrefix(s: bytes)
    requires StringBody(s).complete
    ensures StringBody(s[..StringBody(s).length]) == StringBody(s)
  {
    var n := StringBody(s).length;
    if s[0] == QUOTE {
    } else if s[0] == BACKSLASH {
      BodyOfPrefix(s[2..]);
      assert s[..n][2..] == s[2..][..n - 2];
    } else {
      BodyOfPrefix(s[1..]);
      assert s[..n][1..] == s[1..][..n - 1];
    }
  }

  /** The contents of a string: everything up to the first quote that is not escaped. */
  predicate IsBody(b: bytes) { StringBody(b + [QUOTE]) == Span(true, |b| + 1) }

  /** A piece without quotes and backslashes can be taken off the front. */
  lemma BodyDrop(b: bytes, n: nat)
    requires IsBody(b) && n <= |b| && forall i :: 0 <= i < n ==> b[i] != QUOTE && b[i] != BACKSLASH
    ensures IsBody(b[n..])
  {
    hide StringBody;
    assert b + [QUOTE] == b[..n] + (b[n..] + [QUOTE]);
    BodySkips(b[..n], b[n..] + [QUOTE]);
  }

  lemma BodyDropEscape(b: bytes)
    requires IsBody(b) && b != [] && b[0] == BACKSLASH && |b| >= 2
    ensures IsBody(b[2..])
  {
    assert (b + [QUOTE])[2..] == b[2..] + [QUOTE];
  }

  lemma BodyStart(b: bytes)
    requires IsBody(b) && b != []
    ensures b[0] != QUOTE
  {
  }

  lemma CharacterIsChar(b: bytes)
    requires b != [] && WellFormedLength(b) > 0 && b[0] >= 0x20 && b[0] != QUOTE && b[0] != BACKSLASH
    ensures var (n, code) := (WellFormedLength(b), FirstUnit(b).code);
      && code <= 0x10FFFF && IsChar(Unescaped(code)) && CharText(Unescaped(code)) == b[..n]
      && forall i :: 0 <= i < n ==> b[i] != QUOTE && b[i] != BACKSLASH
  {
    hide Utf8Of, WellFormedLength, FirstUnit;
    var n := WellFormedLength(b);
    WellFormedUnit(b);
    if n == 1 {
      OneByte(b);
    } else {
      forall i | 0 <= i < n ensures b[i] >= 0x80 {
        CharacterBytes(b, i);
      }
      LargeLead(FirstUnit(b).code, b);
    }
  }

  lemma OneByte(b: bytes)
    requires WellFormedLength(b) == 1
    ensures FirstUnit(b).code == b[0]
  {
    assert b[1..1] == [];
  }

  lemma LargeLead(code: nat, b: bytes)
    requires IsScalar(code) && b != [] && b[0] >= 0x80 && Utf8Of(code)[0] == b[0]
    ensures code >= 0x80
  {
  }

  lemma EscapeIsShort(encoding: Encoding, b: bytes)
    requires |b| >= 2 && b[0] == BACKSLASH && UnescapeLetter(b[1]).Some?
    ensures IsChar(Short(b[1])) && CharText(Short(b[1])) == b[..2] && b[1] < 0x80
    ensures Unescape(encoding, b).Some? && Unescape(encoding, b).value.length == 2
  {
  }

  /** A numeric escape is one character of the grammar, or two for a pair of surrogates. */
  lemma EscapeIsNumeric(encoding: Encoding, b: bytes)
    requires b != [] && b[0] == BACKSLASH && Unescape(encoding, b).Some?
    requires |b| >= 2 && UnescapeLetter(b[1]).None?
    ensures |b| >= 6 && IsChar(Escaped(b[2..6])) && CharText(Escaped(b[2..6])) == b[..6]
    ensures forall i :: 2 <= i < 6 ==> b[i] != QUOTE && b[i] != BACKSLASH && b[i] < 0x80
    ensures Unescape(encoding, b).value.length in {6, 12}
    ensures Unescape(encoding, b).value.length == 12 ==>
      |b| >= 12 && b[6] == BACKSLASH && b[7] == LOWER_U && FromHex4(b[8..]).Some?
  {
    hide Utf8Of, Combine;
    assert b[..6] == [BACKSLASH, LOWER_U] + b[2..6];
    assert HexValue(QUOTE).None? && HexValue(BACKSLASH).None?;
    forall i | 2 <= i < 6 ensures HexValue(b[i]).Some? {
      assert b[i] == b[2..][i - 2];
    }
  }

  lemma HexIsEscape(b: bytes)
    requires |b| >= 6 && b[0] == BACKSLASH && b[1] == LOWER_U && FromHex4(b[2..]).Some?
    ensures IsChar(Escaped(b[2..6])) && CharText(Escaped(b[2..6])) == b[..6]
    ensures forall i :: 2 <= i < 6 ==> b[i] != QUOTE && b[i] != BACKSLASH && b[i] < 0x80
  {
    assert b[..6] == [BACKSLASH, LOWER_U] + b[2..6];
    assert HexValue(QUOTE).None? && HexValue(BACKSLASH).None?;
    forall i | 2 <= i < 6 ensures HexValue(b[i]).Some? {
      assert b[i] == b[2..][i - 2];
    }
  }

  lemma BodyDropNumeric(b: bytes)
    requires IsBody(b) && |b| >= 6 && b[0] == BACKSLASH
    requires forall i :: 2 <= i < 6 ==> b[i] != QUOTE && b[i] != BACKSLASH
    ensures IsBody(b[6..])
  {
    hide IsBody;
    BodyDropEscape(b);
    BodyDrop(b[2..], 4);
    assert b[2..][4..] == b[6..];
  }

  lemma CharsJoin(c: Char, cs: seq<Char>, b: bytes, n: nat)
    requires IsChar(c) && AreChars(cs) && n <= |b| && CharText(c) == b[..n] && CharsText(cs) == b[n..]
    ensures AreChars([c] + cs) && CharsText([c] + cs) == b
  {
    hide IsChar, CharText;
    assert ([c] + cs)[1..] == cs;
    assert b == b[..n] + b[n..];
  }

  /** Well-formed contents without control characters, which decode, are characters of the grammar. */
  lemma {:induction false} BodyIsChars(encoding: Encoding, b: bytes) returns (cs: seq<Char>)
    requires encoding != Cesu8 && IsBody(b) && IsWellFormed(b) && Decode(encoding, b, 0).Some?
    requires forall i :: 0 <= i < |b| ==> b[i] >= 0x20
    ensures AreChars(cs) && CharsText(cs) == b
    decreases |b|
  {
    hide IsBody, Unescape, Utf8Of, WellFormedLength, FirstUnit, IsChar, CharText, UnescapeLetter, FromHex4, Decode;
    if b == [] {
      return [];
    }
    var c: Char;
    var n: nat;
    if b[0] == BACKSLASH {
      DecodesEscape(encoding, b);
      UnescapeNeedsTwo(encoding, b);
      if UnescapeLetter(b[1]).Some? {
        EscapeIsShort(encoding, b);
        BodyDropEscape(b);
        c, n := Short(b[1]), 2;
      } else {
        EscapeIsNumeric(encoding, b);
        BodyDropNumeric(b);
        c, n := Escaped(b[2..6]), 6;
        if Unescape(encoding, b).value.length == 12 {
          var low := b[6..];
          assert low[2..] == b[8..] && low[6..] == b[12..];
          HexIsEscape(low);
          BodyDropNumeric(low);
          Cut(b, 6);
          Cut(low, 6);
          var rest := BodyIsChars(encoding, low[6..]);
          CharsJoin(Escaped(low[2..6]), rest, low, 6);
          cs := [Escaped(low[2..6])] + rest;
          CharsJoin(c, cs, b, 6);
          cs := [c] + cs;
          return;
        }
      }
      Cut(b, n);
    } else {
      n := WellFormedLength(b);
      BodyStart(b);
      CharacterIsChar(b);
      c := Unescaped(FirstUnit(b).code);
      DecodeCharacter(encoding, b);
      BodyDrop(b, n);
    }
    cs := BodyIsChars(encoding, b[n..]);
    CharsJoin(c, cs, b, n);
    cs := [c] + cs;
  }

  lemma UnescapeNeedsTwo(encoding: Encoding, b: bytes)
    requires b != [] && b[0] == BACKSLASH
    ensures Unescape(encoding, b).Some? ==> |b| >= 2
    ensures |b| >= 2 && UnescapeLetter(b[1]).Some? ==>
      Unescape(encoding, b).Some? && Unescape(encoding, b).value.length == 2
  {
  }

  // ---- tokens and the whitespace before them --------------------------------------------------------------------

  ghost predicate IsPlainRest(s: bytes) { IsWellFormed(s) && ArePlain(Stream(s, false)) }

  lemma {:induction false} SpacesOnly(s: bytes)
    ensures AreSpaces(s[..SpaceLength(s)])
  {
    if SpaceLength(s) > 0 {
      SpacesOnly(s[1..]);
      assert s[..SpaceLength(s)] == [s[0]] + s[1..][..SpaceLength(s[1..])];
    }
  }

  lemma WhitespaceToken(s: bytes)
    requires s != [] && IsPlain(FirstToken(s), Whitespace)
    ensures AreSpaces(FirstToken(s).text)
  {
    hide StringBody, CommentSpan, SpaceLength, CommonPrefix, RunLength, RunState, AreSpaces;
    SpacesOnly(s);
  }

  lemma PlainConcat(a: seq<Token>, b: seq<Token>)
    ensures ArePlain(a + b) <==> ArePlain(a) && ArePlain(b)
  {
    hide IsPlainToken;
    assert forall i :: 0 <= i < |a| ==> (a + b)[i] == a[i];
    assert forall i :: 0 <= i < |b| ==> (a + b)[|a| + i] == b[i];
  }

  /** The first token is whitespace or plain, and what follows is again plain, if the token is no error. */
  lemma PlainStep(s: bytes)
    requires IsPlainRest(s) && s != []
    ensures FirstToken(s).kind != Comment && (!IsPlain(FirstToken(s), Whitespace) ==> IsPlainToken(FirstToken(s)))
    ensures !FirstToken(s).error ==> IsPlainRest(s[|FirstToken(s).text|..])
  {
    hide IsWellFormed, FirstToken, Stream, AllNul;
    LexStep(s);
    StreamUnfold(s, false);
    var t := FirstToken(s);
    PlainConcat(if IsSkipped(t, false) then [] else [t], Stream(s[|t.text|..], false));
    assert !IsSkipped(t, false) ==> IsPlainToken([t][0]);
    if !t.error {
      FirstTokenIsWellFormed(s);
    }
  }

  /** The next significant token, and the whitespace before it. */
  lemma {:induction false} NextToken(s: bytes, comments: bool, t: Token, ts: seq<Token>)
    returns (ws: bytes, rest: bytes)
    requires IsPlainRest(s) && Stream(s, comments) == [t] + ts && !t.error
    ensures AreSpaces(ws) && s == ws + (t.text + rest)
    ensures t.text + rest != [] && FirstToken(t.text + rest) == t && IsPlainToken(t) && IsWellFormed(t.text + rest)
    ensures IsPlainRest(rest) && Stream(rest, comments) == ts
    decreases |s|
  {
    hide IsPlainRest, IsPlainToken, FirstToken, Stream, AreSpaces, IsWellFormed;
    StreamUnfold(s, comments);
    assert s != [];
    LexStep(s);
    PlainStep(s);
    var first := FirstToken(s);
    var after := s[|first.text|..];
    if IsSkipped(first, comments) {
      WhitespaceToken(s);
      var more;
      assert Stream(after, comments) == [t] + ts;
      more, rest := NextToken(after, comments, t, ts);
      ws := first.text + more;
      SpacesConcat(first.text, more);
    } else {
      ws, rest := [], after;
      assert first == t && Stream(after, comments) == ts by { FirstOf(first, t, Stream(after, comments), ts); }
      assert AreSpaces([]) by { NoSpaces(); }
      assert IsWellFormed(s) by { RestIsWellFormed(s); }
    }
  }

  lemma FirstOf(a: Token, b: Token, x: seq<Token>, y: seq<Token>)
    requires [a] + x == [b] + y
    ensures a == b && x == y
  {
    assert ([a] + x)[0] == ([b] + y)[0] && ([a] + x)[1..] == ([b] + y)[1..];
  }

  lemma NoSpaces()
    ensures AreSpaces([])
  {
  }

  lemma RestIsWellFormed(s: bytes)
    requires IsPlainRest(s)
    ensures IsWellFormed(s)
  {
  }

  lemma SpacesConcat(a: bytes, b: bytes)
    requires AreSpaces(a) && AreSpaces(b)
    ensures AreSpaces(a + b)
  {
  }

  /** Where no significant token is left there is only whitespace. */
  lemma {:induction false} OnlySpacesLeft(s: bytes, comments: bool)
    requires IsPlainRest(s) && Stream(s, comments) == []
    ensures AreSpaces(s)
    decreases |s|
  {
    hide IsPlainRest, IsPlainToken, FirstToken, Stream, AreSpaces;
    if s == [] {
      NoSpaces();
    } else {
      StreamUnfold(s, comments);
      LexStep(s);
      PlainStep(s);
      var first := FirstToken(s);
      assert IsSkipped(first, comments);
      WhitespaceToken(s);
      OnlySpacesLeft(s[|first.text|..], comments);
      SpacesConcat(first.text, s[|first.text|..]);
    }
  }

  // ---- scalars --------------------------------------------------------------------------------------------------

  /** The characters of a string token. */
  lemma StringTokenIsChars(t: Token, rest: bytes, rules: Rules) returns (cs: seq<Char>)
    requires t.text + rest != [] && FirstToken(t.text + rest) == t && IsPlain(t, String) && IsPlainToken(t)
    requires IsWellFormed(t.text + rest) && rules.encoding != Cesu8 && Decoded(t, rules).Some?
    ensures AreChars(cs) && t == StringToken(cs)
  {
    hide IsWellFormed, Decode, MatchOf, FirstToken, CharsText;
    var s := t.text + rest;
    var b := Inner(t.text);
    MatchedToken(s, MatchOf(s));
    StringTokenBody(s, t);
    FirstTokenIsWellFormed(s);
    forall i | 0 <= i < |b| ensures b[i] >= 0x20 {
      assert b[i] == t.text[i + 1];
    }
    cs := BodyIsChars(rules.encoding, b);
  }

  lemma StringTokenBody(s: bytes, t: Token)
    requires s != [] && FirstToken(s) == t && IsPlain(t, String)
    ensures |t.text| >= 2 && t.text == [QUOTE] + Inner(t.text) + [QUOTE] && IsBody(Inner(t.text))
  {
    hide StringBody, CommentSpan, SpaceLength, CommonPrefix, RunLength, RunState;
    assert IsLexed(t);
    LexedString(t);
    var n := StringBody(s[1..]).length;
    BodyOfPrefix(s[1..]);
    assert t.text == s[..n + 1];
    assert s[1..][..n] == Inner(t.text) + [QUOTE];
  }

  /** A significant token that is a value by itself is a phrase. */
  lemma LeafIsPhrase(t: Token, rest: bytes, rules: Rules) returns (p: Phrase)
    requires t.text + rest != [] && FirstToken(t.text + rest) == t && IsPlainToken(t)
    requires IsWellFormed(t.text + rest) && rules.encoding != Cesu8 && IsScalarToken(t, rules)
    ensures IsPhrase(p) && TreeOfPhrase(p) == Leaf(t) && PhraseText(p) == t.text
  {
    hide IsWellFormed, FirstToken, Decoded, HasLeadingZero, IsNumber, FormText, StringText;
    assert IsLexed(t);
    if t.kind == Number {
      LexedNumber(t);
      RfcIffNotPadded(t.text);
      var f :| IsForm(f) && FormText(f) == t.text && (f.whole == [ZERO] || f.whole[0] != ZERO);
      p := NumberPhrase(f);
    } else if t.kind == String {
      var cs := StringTokenIsChars(t, rest, rules);
      p := StringPhrase(cs);
    } else {
      p := LiteralPhrase(t.text);
      LiteralKinds(t, rules);
    }
  }

  lemma LiteralKinds(t: Token, rules: Rules)
    requires IsScalarToken(t, rules) && t.kind != Number && t.kind != String
    ensures t.text in {TRUE_TEXT, FALSE_TEXT, NULL_TEXT} && t.kind == LiteralKind(t.text)
  {
  }

  // ---- trailing commas ------------------------------------------------------------------------------------------

  lemma NoTrailingConcat(a: seq<Token>, b: seq<Token>)
    requires HasNoTrailingComma(a + b)
    ensures HasNoTrailingComma(a) && HasNoTrailingComma(b)
  {
    assert forall i :: 0 <= i < |a| ==> (a + b)[i] == a[i];
    assert forall i :: 0 <= i < |b| ==> (a + b)[|a| + i] == b[i];
  }

  lemma CommaThenClose(close: Token)
    requires IsClosing(close)
    ensures !HasNoTrailingComma([COMMA_TOKEN] + [close])
  {
    var ts := [COMMA_TOKEN] + [close];
    assert ts[0] == COMMA_TOKEN && ts[0 + 1] == close;
  }

  /** Such a list of items is not trailed by a comma. */
  lemma {:induction false} ItemsDoNotTrail(items: seq<Tree>, trailing: bool)
    requires items != [] && HasNoTrailingComma(FlattenItems(items, trailing))
    ensures !trailing
    ensures HasNoTrailingComma(Flatten(items[0]))
    ensures |items| > 1 ==> HasNoTrailingComma(FlattenItems(items[1..], trailing))
    decreases |items|
  {
    hide HasNoTrailingComma, Flatten, FlattenItems;
    FlattenItemsStep(items, trailing);
    FlattenItemsStep(items[1..], trailing);
    var more := [COMMA_TOKEN] + FlattenItems(items[1..], trailing);
    NoTrailingConcat(Flatten(items[0]), if |items| == 1 && !trailing then [CLOSE_ARRAY] else more);
    if |items| > 1 {
      NoTrailingConcat([COMMA_TOKEN], FlattenItems(items[1..], trailing));
      ItemsDoNotTrail(items[1..], trailing);
    } else {
      CommaThenClose(CLOSE_ARRAY);
    }
  }

  lemma {:induction false} FieldsDoNotTrail(fields: seq<Field>, trailing: bool)
    requires fields != [] && HasNoTrailingComma(FlattenFields(fields, trailing))
    ensures !trailing
    ensures HasNoTrailingComma(Flatten(fields[0].val))
    ensures |fields| > 1 ==> HasNoTrailingComma(FlattenFields(fields[1..], trailing))
    decreases |fields|
  {
    hide HasNoTrailingComma, Flatten, FlattenFields;
    FlattenFieldsStep(fields, trailing);
    FlattenFieldsStep(fields[1..], trailing);
    var head := [fields[0].key, COLON_TOKEN];
    var more := [COMMA_TOKEN] + FlattenFields(fields[1..], trailing);
    NoTrailingConcat(head + Flatten(fields[0].val), if |fields| == 1 && !trailing then [CLOSE_OBJECT] else more);
    NoTrailingConcat(head, Flatten(fields[0].val));
    if |fields| > 1 {
      NoTrailingConcat([COMMA_TOKEN], FlattenFields(fields[1..], trailing));
      FieldsDoNotTrail(fields[1..], trailing);
    } else {
      CommaThenClose(CLOSE_OBJECT);
    }
  }

  // ---- from a derivation back to a phrase -----------------------------------------------------------------------

  /** The text that a derivation was read from is whitespace, a phrase with that derivation, and the rest. */
  lemma {:induction false} ValueIsPhrase(t: Tree, s: bytes, ts: seq<Token>, rules: Rules)
    returns (before: bytes, p: Phrase, rest: bytes)
    requires IsPlainRest(s) && Stream(s, rules.comments) == Flatten(t) + ts
    requires IsValue(t, rules) && rules.encoding != Cesu8 && HasNoTrailingComma(Flatten(t))
    ensures AreSpaces(before) && IsPhrase(p) && TreeOfPhrase(p) == t && s == before + (PhraseText(p) + rest)
    ensures IsPlainRest(rest) && Stream(rest, rules.comments) == ts
    decreases t, 2
  {
    hide IsPlainRest, Stream, FlattenItems, FlattenFields, HasNoTrailingComma, AreSpaces, TreesOfItems, FieldsOfPairs;
    hide ItemListText, PairsText, IsItem, DistinctKeys, IsKey, IsScalarToken, FirstToken, IsPlainToken, IsWellFormed;
    match t
    case Leaf(token) =>
      assert Flatten(t) + ts == [token] + ts;
      ScalarHasNoError(token, rules);
      before, rest := NextToken(s, rules.comments, token, ts);
      p := LeafIsPhrase(token, rest, rules);
    case ArrayTree(items, trailing) =>
      assert Flatten(t) + ts == [OPEN_ARRAY] + (FlattenItems(items, trailing) + ts);
      NoTrailingConcat([OPEN_ARRAY], FlattenItems(items, trailing));
      var inner;
      before, inner := NextToken(s, rules.comments, OPEN_ARRAY, FlattenItems(items, trailing) + ts);
      p, rest := ArrayIsPhrase(items, trailing, inner, ts, rules);
    case ObjectTree(fields, trailing) =>
      assert Flatten(t) + ts == [OPEN_OBJECT] + (FlattenFields(fields, trailing) + ts);
      NoTrailingConcat([OPEN_OBJECT], FlattenFields(fields, trailing));
      var inner;
      before, inner := NextToken(s, rules.comments, OPEN_OBJECT, FlattenFields(fields, trailing) + ts);
      p, rest := ObjectIsPhrase(fields, trailing, inner, ts, rules);
  }

  lemma ScalarHasNoError(t: Token, rules: Rules)
    requires IsScalarToken(t, rules)
    ensures !t.error
  {
  }

  lemma {:induction false} ArrayIsPhrase(items: seq<Tree>, trailing: bool, s: bytes, ts: seq<Token>, rules: Rules)
    returns (p: Phrase, rest: bytes)
    requires IsPlainRest(s) && Stream(s, rules.comments) == FlattenItems(items, trailing) + ts
    requires IsValue(ArrayTree(items, trailing), rules) && rules.encoding != Cesu8
    requires HasNoTrailingComma(FlattenItems(items, trailing))
    ensures IsPhrase(p) && TreeOfPhrase(p) == ArrayTree(items, trailing) && PhraseText(p) + rest == [LBRACKET] + s
    ensures IsPlainRest(rest) && Stream(rest, rules.comments) == ts
    decreases items, 1
  {
    hide IsPlainRest, Stream, FlattenItems, HasNoTrailingComma, AreSpaces, TreesOfItems, ItemListText, IsItem;
    hide FirstToken, IsPlainToken, IsWellFormed;
    if items == [] {
      FlattenItemsStep(items, trailing);
      var gap;
      gap, rest := NextToken(s, rules.comments, CLOSE_ARRAY, ts);
      p := ArrayPhrase(gap, []);
      assert TreesOfItems([]) == [] by { NoTreesOfNothing(); }
      assert PhraseText(p) + rest == [LBRACKET] + (gap + ([RBRACKET] + rest));
    } else {
      ItemsDoNotTrail(items, trailing);
      var list;
      list, rest := TreesAreItems(items, s, ts, rules);
      assert AreSpaces([]) by { NoSpaces(); }
      p := ArrayPhrase([], list);
      assert PhraseText(p) + rest == [LBRACKET] + (ItemListText(list) + rest);
    }
  }

  lemma NoTreesOfNothing()
    ensures TreesOfItems([]) == [] && FieldsOfPairs([]) == []
  {
  }

  /** One value with the whitespace around it, and the token after it. */
  lemma {:induction false} ValueIsItem(t: Tree, s: bytes, close: Token, ts: seq<Token>, rules: Rules)
    returns (item: Item, rest: bytes)
    requires IsPlainRest(s) && Stream(s, rules.comments) == Flatten(t) + ([close] + ts) && !close.error
    requires IsValue(t, rules) && rules.encoding != Cesu8 && HasNoTrailingComma(Flatten(t))
    ensures IsItem(item) && TreeOfPhrase(item.val) == t && s == ItemText(item) + (close.text + rest)
    ensures IsPlainRest(rest) && Stream(rest, rules.comments) == ts
    decreases t, 3
  {
    hide IsPlainRest, Stream, HasNoTrailingComma, AreSpaces, IsPhrase, PhraseText, Flatten, TreeOfPhrase, IsValue;
    hide FirstToken, IsPlainToken, IsWellFormed;
    var before, p, middle := ValueIsPhrase(t, s, [close] + ts, rules);
    var after;
    after, rest := NextToken(middle, rules.comments, close, ts);
    item := Item(before, p, after);
    assert s == before + (PhraseText(p) + (after + (close.text + rest)));
  }

  lemma ItemListTextStep(item: Item, list: seq<Item>)
    ensures ItemListText([item] + list)
         == ItemText(item) + if list == [] then [RBRACKET] else [COMMA] + ItemListText(list)
    ensures TreesOfItems([item] + list) == [TreeOfPhrase(item.val)] + TreesOfItems(list)
  {
    hide ItemText, TreeOfPhrase;
    assert ([item] + list)[1..] == list;
  }

  lemma {:induction false} TreesAreItems(items: seq<Tree>, s: bytes, ts: seq<Token>, rules: Rules)
    returns (list: seq<Item>, rest: bytes)
    requires items != [] && IsPlainRest(s) && Stream(s, rules.comments) == FlattenItems(items, false) + ts
    requires rules.encoding != Cesu8 && HasNoTrailingComma(FlattenItems(items, false))
    requires forall i :: 0 <= i < |items| ==> IsValue(items[i], rules)
    ensures list != [] && (forall i :: 0 <= i < |list| ==> IsItem(list[i])) && TreesOfItems(list) == items
    ensures s == ItemListText(list) + rest
    ensures IsPlainRest(rest) && Stream(rest, rules.comments) == ts
    decreases items, 0
  {
    hide IsPlainRest, Stream, Flatten, FlattenItems, HasNoTrailingComma, TreesOfItems, ItemListText, ItemText, IsItem;
    hide TreeOfPhrase, IsValue;
    ItemsDoNotTrail(items, false);
    FlattenItemsStep(items, false);
    var first := Flatten(items[0]);
    if |items| == 1 {
      assert first + [CLOSE_ARRAY] + ts == first + ([CLOSE_ARRAY] + ts);
      var item;
      item, rest := ValueIsItem(items[0], s, CLOSE_ARRAY, ts, rules);
      list := [item];
      NoTreesOfNothing();
      ItemListTextStep(item, []);
      assert [item] + [] == [item];
      assert items == [items[0]];
      Associate3(ItemText(item), [RBRACKET], rest);
    } else {
      var more := FlattenItems(items[1..], false);
      assert first + ([COMMA_TOKEN] + more) + ts == first + ([COMMA_TOKEN] + (more + ts));
      var item, middle := ValueIsItem(items[0], s, COMMA_TOKEN, more + ts, rules);
      var others;
      others, rest := TreesAreItems(items[1..], middle, ts, rules);
      list := [item] + others;
      ItemListTextStep(item, others);
      assert items == [items[0]] + items[1..];
      Associate4(ItemText(item), [COMMA], ItemListText(others), rest);
    }
  }

  lemma Associate3(a: bytes, b: bytes, c: bytes)
    ensures a + b + c == a + (b + c)
  {
  }

  lemma Associate4(a: bytes, b: bytes, c: bytes, d: bytes)
    ensures a + (b + c) + d == a + (b + (c + d))
  {
  }

  lemma {:induction false} ObjectIsPhrase(fields: seq<Field>, trailing: bool, s: bytes, ts: seq<Token>, rules: Rules)
    returns (p: Phrase, rest: bytes)
    requires IsPlainRest(s) && Stream(s, rules.comments) == FlattenFields(fields, trailing) + ts
    requires IsValue(ObjectTree(fields, trailing), rules) && rules.encoding != Cesu8
    requires HasNoTrailingComma(FlattenFields(fields, trailing))
    ensures IsPhrase(p) && TreeOfPhrase(p) == ObjectTree(fields, trailing) && PhraseText(p) + rest == [LBRACE] + s
    ensures IsPlainRest(rest) && Stream(rest, rules.comments) == ts
    decreases fields, 1
  {
    hide IsPlainRest, Stream, FlattenFields, HasNoTrailingComma, AreSpaces, FieldsOfPairs, PairsText, IsItem;
    hide FirstToken, IsPlainToken, IsWellFormed, IsKey, DistinctKeys;
    if fields == [] {
      FlattenFieldsStep(fields, trailing);
      var gap;
      gap, rest := NextToken(s, rules.comments, CLOSE_OBJECT, ts);
      p := ObjectPhrase(gap, []);
      assert FieldsOfPairs([]) == [] by { NoTreesOfNothing(); }
      assert PhraseText(p) + rest == [LBRACE] + (gap + ([RBRACE] + rest));
    } else {
      FieldsDoNotTrail(fields, trailing);
      var pairs;
      pairs, rest := FieldsArePairs(fields, s, ts, rules);
      assert AreSpaces([]) by { NoSpaces(); }
      p := ObjectPhrase([], pairs);
      assert PhraseText(p) + rest == [LBRACE] + (PairsText(pairs) + rest);
    }
  }

  /** One name and its value with the whitespace around them, and the token after them. */
  lemma {:induction false} FieldIsPair(f: Field, s: bytes, close: Token, ts: seq<Token>, rules: Rules)
    returns (pair: Pair, rest: bytes)
    requires IsPlainRest(s) && !close.error
    requires Stream(s, rules.comments) == [f.key, COLON_TOKEN] + Flatten(f.val) + ([close] + ts)
    requires IsKey(f, rules) && IsValue(f.val, rules) && rules.encoding != Cesu8 && HasNoTrailingComma(Flatten(f.val))
    ensures IsPair(pair) && f == Field(StringToken(pair.key), TreeOfPhrase(pair.item.val))
    ensures var end := ItemText(pair.item) + (close.text + rest);
      s == pair.before + (StringText(pair.key) + (pair.after + ([COLON] + end)))
    ensures IsPlainRest(rest) && Stream(rest, rules.comments) == ts
    decreases f, 0
  {
    hide IsPlainRest, Stream, HasNoTrailingComma, AreSpaces, Flatten, TreeOfPhrase, IsValue, FirstToken, IsPlainToken;
    hide IsWellFormed, IsItem, ItemText, StringText, Decoded;
    var value := Flatten(f.val) + ([close] + ts);
    assert [f.key, COLON_TOKEN] + Flatten(f.val) + ([close] + ts) == [f.key] + ([COLON_TOKEN] + value);
    var before, afterKey := NextToken(s, rules.comments, f.key, [COLON_TOKEN] + value);
    var key := StringTokenIsChars(f.key, afterKey, rules);
    var after, afterColon := NextToken(afterKey, rules.comments, COLON_TOKEN, value);
    var item;
    item, rest := ValueIsItem(f.val, afterColon, close, ts, rules);
    pair := Pair(before, key, after, item);
  }

  lemma PairsTextPrepend(p: Pair, pairs: seq<Pair>, rest: bytes)
    ensures FieldsOfPairs([p] + pairs) == [Field(StringToken(p.key), TreeOfPhrase(p.item.val))] + FieldsOfPairs(pairs)
    ensures var end := if pairs == [] then [RBRACE] + rest else [COMMA] + (PairsText(pairs) + rest);
      PairsText([p] + pairs) + rest
      == p.before + (StringText(p.key) + (p.after + ([COLON] + (ItemText(p.item) + end))))
  {
    hide ItemText, TreeOfPhrase, StringText, PairsText;
    assert ([p] + pairs)[1..] == pairs;
    PairsTextStep([p] + pairs, rest);
  }

  lemma {:induction false} FieldsArePairs(fields: seq<Field>, s: bytes, ts: seq<Token>, rules: Rules)
    returns (pairs: seq<Pair>, rest: bytes)
    requires fields != [] && IsPlainRest(s) && Stream(s, rules.comments) == FlattenFields(fields, false) + ts
    requires rules.encoding != Cesu8 && HasNoTrailingComma(FlattenFields(fields, false))
    requires forall i :: 0 <= i < |fields| ==> IsKey(fields[i], rules) && IsValue(fields[i].val, rules)
    ensures pairs != [] && (forall i :: 0 <= i < |pairs| ==> IsPair(pairs[i])) && FieldsOfPairs(pairs) == fields
    ensures s == PairsText(pairs) + rest
    ensures IsPlainRest(rest) && Stream(rest, rules.comments) == ts
    decreases fields, 0
  {
    hide IsPlainRest, Stream, Flatten, FlattenFields, HasNoTrailingComma, FieldsOfPairs, PairsText, ItemText, IsPair;
    hide TreeOfPhrase, IsValue, IsKey, StringText;
    FieldsDoNotTrail(fields, false);
    FlattenFieldsStep(fields, false);
    var first := [fields[0].key, COLON_TOKEN] + Flatten(fields[0].val);
    if |fields| == 1 {
      assert first + [CLOSE_OBJECT] + ts == first + ([CLOSE_OBJECT] + ts);
      var pair;
      pair, rest := FieldIsPair(fields[0], s, CLOSE_OBJECT, ts, rules);
      pairs := [pair];
      NoTreesOfNothing();
      PairsTextPrepend(pair, [], rest);
      assert [pair] + [] == [pair];
      assert fields == [fields[0]];
    } else {
      var more := FlattenFields(fields[1..], false);
      assert first + ([COMMA_TOKEN] + more) + ts == first + ([COMMA_TOKEN] + (more + ts));
      var pair, middle := FieldIsPair(fields[0], s, COMMA_TOKEN, more + ts, rules);
      var others;
      others, rest := FieldsArePairs(fields[1..], middle, ts, rules);
      pairs := [pair] + others;
      PairsTextPrepend(pair, others, rest);
      assert fields == [fields[0]] + fields[1..];
    }
  }

  // ---- interoperability -----------------------------------------------------------------------------------------

  /** A derivation that the rules accept comes from a phrase with unique names and paired surrogates. */
  lemma {:induction false} ValidIsInteroperable(p: Phrase, rules: Rules)
    requires IsPhrase(p) && IsValue(TreeOfPhrase(p), rules) && rules.encoding != Cesu8
    ensures IsInteroperable(p)
    decreases p
  {
    hide StringValue, Decoded, StringText, FormText, HasLeadingZero, TreesOfItems, FieldsOfPairs, DistinctKeys, Key;
    match p
    case StringPhrase(chars) =>
      StringMeans(chars, rules);
    case ArrayPhrase(_, items) =>
      forall i | 0 <= i < |items| ensures IsInteroperable(items[i].val) {
        assert items[i].val < items[i];
        assert IsValue(TreesOfItems(items)[i], rules);
        ValidIsInteroperable(items[i].val, rules);
      }
    case ObjectPhrase(_, pairs) =>
      var fields := FieldsOfPairs(pairs);
      forall i | 0 <= i < |pairs|
        ensures StringValue(pairs[i].key).Some? && IsInteroperable(pairs[i].item.val)
      {
        assert pairs[i].item.val < pairs[i].item < pairs[i];
        assert IsKey(fields[i], rules) && IsValue(fields[i].val, rules);
        NameIsRead(pairs[i].key, fields[i], rules);
        ValidIsInteroperable(pairs[i].item.val, rules);
      }
      forall i, j | 0 <= i < j < |pairs| ensures StringValue(pairs[i].key) != StringValue(pairs[j].key) {
        assert IsKey(fields[i], rules) && IsKey(fields[j], rules);
        NameIsRead(pairs[i].key, fields[i], rules);
        NameIsRead(pairs[j].key, fields[j], rules);
        KeysDiffer(fields, rules, i, j);
      }
    case _ =>
  }

  lemma NameIsRead(key: seq<Char>, f: Field, rules: Rules)
    requires AreChars(key) && f.key == StringToken(key) && IsKey(f, rules) && rules.encoding != Cesu8
    ensures StringValue(key) == Some(Key(f, rules))
  {
    hide StringValue, Decoded, StringText;
    StringMeans(key, rules);
  }

  lemma KeysDiffer(fields: seq<Field>, rules: Rules, i: nat, j: nat)
    requires DistinctKeys(fields, rules) && i < j < |fields|
    ensures Key(fields[i], rules) != Key(fields[j], rules)
  {
  }

  // ---- the theorem ----------------------------------------------------------------------------------------------

  /** Without comments it does not matter whether the rules permit them. */
  lemma {:induction false} NoCommentsInStream(s: bytes)
    requires ArePlain(Stream(s, false))
    ensures Stream(s, true) == Stream(s, false)
    decreases |s|
  {
    hide FirstToken, Stream, AllNul;
    StreamUnfold(s, true);
    StreamUnfold(s, false);
    if s != [] {
      var t := FirstToken(s);
      LexStep(s);
      var rest := s[|t.text|..];
      PlainConcat(if IsSkipped(t, false) then [] else [t], Stream(rest, false));
      assert !IsSkipped(t, false) ==> IsPlainToken([t][0]);
      NoCommentsInStream(rest);
    }
  }

  lemma PlainHasNoNuls(ts: seq<Token>, nuls: seq<Token>)
    requires ArePlain(ts + nuls) && OnlyNuls(nuls)
    ensures nuls == []
  {
    hide AllNul;
    PlainConcat(ts, nuls);
    assert nuls != [] ==> IsPlainToken(nuls[0]);
  }

  /** A value of RFC 8259 between whitespace that the parser accepts under these rules. */
  ghost predicate IsAcceptable(item: Item, rules: Rules) {
    && IsItem(item) && IsInteroperable(item.val)
    && IsAdmitted(item.val, rules) && MeetsDemands(PhraseRead(item.val), rules)
  }

  /** An accepted text that is plain is a value of RFC 8259 between whitespace. */
  lemma PlainIsItem(text: bytes, opts: Options) returns (item: Item)
    requires IsPlainText(text) && Parse(text, opts).Returned?
    requires opts.failureMode != Ignore && opts.rules.encoding != Cesu8 && opts.rules.completeParse
    ensures ItemText(item) == text && IsAcceptable(item, opts.rules)
  {
    hide Parse, Stream, IsWellFormed, ArePlain, IsPhrase, PhraseText, AreSpaces, IsInteroperable, IsAdmitted;
    hide MeetsDemands, PhraseRead, HasNoTrailingComma, IsValue, Meaning, Flatten, TreeOfPhrase, Depth;
    var rules, v := opts.rules, Parse(text, opts).val;
    ParseIffGrammar(text, opts, v);
    var t, more :| Derives(t, more, text, rules, v);
    NoCommentsInStream(text);
    PlainHasNoNuls(Flatten(t), more);
    assert Flatten(t) + [] == Flatten(t);
    var before, p, rest := ValueIsPhrase(t, text, [], rules);
    OnlySpacesLeft(rest, rules.comments);
    item := Item(before, p, rest);
    assert before + (PhraseText(p) + rest) == before + PhraseText(p) + rest;
    ValidIsInteroperable(p, rules);
    AcceptsExactly(item, opts);
  }

  // ---- the other way: JSON is plain -----------------------------------------------------------------------------

  lemma {:induction false} WellFormedConcat(a: bytes, b: bytes)
    requires IsWellFormed(a) && IsWellFormed(b)
    ensures IsWellFormed(a + b)
    decreases |a|
  {
    hide WellFormedLength, Utf8Of;
    if a == [] {
      assert a + b == b;
    } else {
      var n := WellFormedLength(a);
      WellFormedUnit(a);
      WellFormedConcat(a[n..], b);
      WellFormedAppend(FirstUnit(a).code, a[n..] + b);
      assert a + b == a[..n] + (a[n..] + b);
    }
  }

  lemma CharIsPlain(c: Char)
    requires IsChar(c)
    ensures IsWellFormed(CharText(c)) && forall i :: 0 <= i < |CharText(c)| ==> CharText(c)[i] >= 0x20
  {
    hide IsWellFormed;
    match c
    case Unescaped(code) =>
      assert IsWellFormed([]) by { AsciiIsWellFormed([]); }
      WellFormedAppend(code, []);
      assert Utf8Of(code) + [] == Utf8Of(code);
    case Short(_) =>
      AsciiIsWellFormed(CharText(c));
    case Escaped(digits) =>
      assert forall i :: 0 <= i < 4 ==> HexValue(digits[i]).Some?;
      AsciiIsWellFormed(CharText(c));
  }

  lemma {:induction false} CharsArePlain(cs: seq<Char>)
    requires AreChars(cs)
    ensures IsWellFormed(CharsText(cs)) && forall i :: 0 <= i < |CharsText(cs)| ==> CharsText(cs)[i] >= 0x20
  {
    hide IsChar, CharText, IsWellFormed;
    if cs == [] {
      AsciiIsWellFormed([]);
    } else {
      CharIsPlain(cs[0]);
      CharsArePlain(cs[1..]);
      WellFormedConcat(CharText(cs[0]), CharsText(cs[1..]));
    }
  }

  lemma StringIsPlain(cs: seq<Char>)
    requires AreChars(cs)
    ensures IsWellFormed(StringText(cs)) && IsPlainToken(StringToken(cs))
  {
    hide IsWellFormed, CharsText;
    CharsArePlain(cs);
    AsciiIsWellFormed([QUOTE]);
    WellFormedConcat([QUOTE], CharsText(cs));
    WellFormedConcat([QUOTE] + CharsText(cs), [QUOTE]);
    NotAllNul(StringText(cs));
  }

  lemma FormIsAscii(f: NumberForm)
    requires IsForm(f)
    ensures IsAscii(FormText(f))
  {
  }

  lemma FormIsPlain(f: NumberForm)
    requires IsPhrase(NumberPhrase(f))
    ensures IsAscii(FormText(f)) && IsPlainToken(Token(FormText(f), Number, false))
  {
    hide IsPadded;
    assert IsForm(f);
    FormIsAscii(f);
    RfcIffNotPadded(FormText(f));
    StartsWithDigit(f);
    NotAllNul(FormText(f));
  }

  /** Plain tokens, no comma before a closing bracket, and none at the end. */
  ghost predicate IsTidy(ts: seq<Token>) {
    ArePlain(ts) && HasNoTrailingComma(ts) && ts != [] && ts[|ts| - 1] != COMMA_TOKEN
  }

  lemma TidyConcat(a: seq<Token>, b: seq<Token>)
    requires IsTidy(a) && IsTidy(b)
    ensures IsTidy(a + b) && (a + b)[0] == a[0]
  {
    hide ArePlain;
    PlainConcat(a, b);
    forall i | 0 <= i < |a + b| - 1 && (a + b)[i] == COMMA_TOKEN ensures !IsClosing((a + b)[i + 1]) {
      assert i != |a| - 1;
      assert i >= |a| ==> b[i - |a|] == COMMA_TOKEN;
    }
  }

  lemma TidyComma(ts: seq<Token>)
    requires IsTidy(ts) && !IsClosing(ts[0])
    ensures IsTidy([COMMA_TOKEN] + ts)
  {
    hide ArePlain;
    PunctuationIsTidy();
    PlainConcat([COMMA_TOKEN], ts);
  }

  lemma PunctuationIsTidy()
    ensures IsTidy([OPEN_ARRAY]) && IsTidy([CLOSE_ARRAY]) && IsTidy([OPEN_OBJECT]) && IsTidy([CLOSE_OBJECT])
    ensures IsTidy([COLON_TOKEN]) && ArePlain([COMMA_TOKEN])
  {
    hide AllNul;
    NotAllNul(OPEN_ARRAY.text);
    NotAllNul(CLOSE_ARRAY.text);
    NotAllNul(OPEN_OBJECT.text);
    NotAllNul(CLOSE_OBJECT.text);
    NotAllNul(COLON_TOKEN.text);
    NotAllNul(COMMA_TOKEN.text);
  }

  lemma TidyToken(t: Token)
    requires IsPlainToken(t) && t.kind in {Boolean, Kind.Null, Number, String}
    ensures IsTidy([t]) && !IsClosing(t)
  {
    hide IsPlainToken;
  }

  /** The tokens of a phrase are plain. */
  lemma {:induction false} PhraseIsTidy(p: Phrase)
    requires IsPhrase(p)
    ensures IsTidy(Flatten(TreeOfPhrase(p))) && !IsClosing(Flatten(TreeOfPhrase(p))[0])
    decreases p, 1
  {
    hide FlattenItems, FlattenFields, TreesOfItems, FieldsOfPairs, FormText, StringText, IsTidy, IsPlainToken;
    PunctuationIsTidy();
    match p
    case LiteralPhrase(text) =>
      LiteralIsPlain(text);
      TidyToken(Token(text, LiteralKind(text), false));
    case NumberPhrase(f) =>
      FormIsPlain(f);
      TidyToken(Token(FormText(f), Number, false));
    case StringPhrase(chars) =>
      StringIsPlain(chars);
      TidyToken(StringToken(chars));
    case ArrayPhrase(_, items) =>
      ItemsAreTidy(items);
      TidyConcat([OPEN_ARRAY], FlattenItems(TreesOfItems(items), false));
    case ObjectPhrase(_, pairs) =>
      PairsAreTidy(pairs);
      TidyConcat([OPEN_OBJECT], FlattenFields(FieldsOfPairs(pairs), false));
  }

  lemma LiteralIsPlain(text: bytes)
    requires text in {TRUE_TEXT, FALSE_TEXT, NULL_TEXT}
    ensures IsPlainToken(Token(text, LiteralKind(text), false)) && IsAscii(text)
  {
    NotAllNul(text);
  }

  lemma {:induction false} ItemsAreTidy(items: seq<Item>)
    requires forall i :: 0 <= i < |items| ==> IsPhrase(items[i].val)
    ensures var ts := FlattenItems(TreesOfItems(items), false); IsTidy(ts) && (items != [] ==> !IsClosing(ts[0]))
    decreases items, 0
  {
    hide IsPhrase, TreeOfPhrase, Flatten, FlattenItems, IsTidy;
    PunctuationIsTidy();
    if items == [] {
      NothingToFlatten();
    } else {
      TreesOfItemsStep(items);
      var first, rest := Flatten(TreeOfPhrase(items[0].val)), FlattenItems(TreesOfItems(items[1..]), false);
      assert items[0].val < items[0];
      PhraseIsTidy(items[0].val);
      if |items| > 1 {
        ItemsAreTidy(items[1..]);
        TidyComma(rest);
      }
      TidyConcat(first, if |items| == 1 then [CLOSE_ARRAY] else [COMMA_TOKEN] + rest);
    }
  }

  lemma {:induction false} PairsAreTidy(pairs: seq<Pair>)
    requires forall i :: 0 <= i < |pairs| ==> AreChars(pairs[i].key) && IsPhrase(pairs[i].item.val)
    ensures var ts := FlattenFields(FieldsOfPairs(pairs), false); IsTidy(ts) && (pairs != [] ==> !IsClosing(ts[0]))
    decreases pairs, 0
  {
    hide IsPhrase, TreeOfPhrase, Flatten, FlattenFields, IsTidy, AreChars, StringText, IsPlainToken;
    PunctuationIsTidy();
    if pairs == [] {
      NothingToFlatten();
    } else {
      FieldsOfPairsStep(pairs);
      var key := StringToken(pairs[0].key);
      var first, rest := Flatten(TreeOfPhrase(pairs[0].item.val)), FlattenFields(FieldsOfPairs(pairs[1..]), false);
      assert pairs[0].item.val < pairs[0].item < pairs[0];
      StringIsPlain(pairs[0].key);
      TidyToken(key);
      PhraseIsTidy(pairs[0].item.val);
      if |pairs| > 1 {
        PairsAreTidy(pairs[1..]);
        TidyComma(rest);
      }
      assert [key, COLON_TOKEN] == [key] + [COLON_TOKEN];
      TidyConcat([key], [COLON_TOKEN]);
      TidyConcat([key, COLON_TOKEN], first);
      TidyConcat([key, COLON_TOKEN] + first, if |pairs| == 1 then [CLOSE_OBJECT] else [COMMA_TOKEN] + rest);
    }
  }

  lemma SpacesAreWellFormed(ws: bytes)
    requires AreSpaces(ws)
    ensures IsWellFormed(ws)
  {
    AsciiIsWellFormed(ws);
  }

  lemma PunctuationIsWellFormed()
    ensures IsWellFormed([LBRACKET]) && IsWellFormed([RBRACKET]) && IsWellFormed([COMMA])
    ensures IsWellFormed([LBRACE]) && IsWellFormed([RBRACE]) && IsWellFormed([COLON])
  {
    AsciiIsWellFormed([LBRACKET]);
    AsciiIsWellFormed([RBRACKET]);
    AsciiIsWellFormed([COMMA]);
    AsciiIsWellFormed([LBRACE]);
    AsciiIsWellFormed([RBRACE]);
    AsciiIsWellFormed([COLON]);
  }

  /** The text of a phrase is well-formed UTF-8. */
  lemma {:induction false} PhraseIsWellFormed(p: Phrase)
    requires IsPhrase(p)
    ensures IsWellFormed(PhraseText(p))
    decreases p, 2
  {
    hide IsWellFormed, StringText, FormText, ItemListText, PairsText, AreSpaces, IsItem;
    PunctuationIsWellFormed();
    match p
    case LiteralPhrase(text) =>
      LiteralIsPlain(text);
      AsciiIsWellFormed(text);
    case NumberPhrase(f) =>
      FormIsPlain(f);
      AsciiIsWellFormed(FormText(f));
    case StringPhrase(chars) =>
      StringIsPlain(chars);
    case ArrayPhrase(gap, items) =>
      SpacesAreWellFormed(gap);
      WellFormedConcat(gap, [RBRACKET]);
      if items != [] {
        ItemsAreWellFormed(items);
      }
      WellFormedConcat([LBRACKET], if items == [] then gap + [RBRACKET] else ItemListText(items));
    case ObjectPhrase(gap, pairs) =>
      SpacesAreWellFormed(gap);
      WellFormedConcat(gap, [RBRACE]);
      if pairs != [] {
        PairsAreWellFormed(pairs);
      }
      WellFormedConcat([LBRACE], if pairs == [] then gap + [RBRACE] else PairsText(pairs));
  }

  lemma {:induction false} ItemIsWellFormed(item: Item)
    requires IsItem(item)
    ensures IsWellFormed(ItemText(item))
    decreases item, 3
  {
    hide IsWellFormed, PhraseText, IsPhrase, AreSpaces;
    SpacesAreWellFormed(item.before);
    SpacesAreWellFormed(item.after);
    PhraseIsWellFormed(item.val);
    WellFormedConcat(item.before, PhraseText(item.val));
    WellFormedConcat(item.before + PhraseText(item.val), item.after);
  }

  lemma {:induction false} ItemsAreWellFormed(items: seq<Item>)
    requires items != [] && forall i :: 0 <= i < |items| ==> IsItem(items[i])
    ensures IsWellFormed(ItemListText(items))
    decreases items, 0
  {
    hide IsWellFormed, ItemText, IsItem;
    PunctuationIsWellFormed();
    ItemIsWellFormed(items[0]);
    if |items| > 1 {
      ItemsAreWellFormed(items[1..]);
      WellFormedConcat([COMMA], ItemListText(items[1..]));
    }
    WellFormedConcat(ItemText(items[0]), if |items| == 1 then [RBRACKET] else [COMMA] + ItemListText(items[1..]));
  }

  lemma {:induction false} PairsAreWellFormed(pairs: seq<Pair>)
    requires pairs != [] && forall i :: 0 <= i < |pairs| ==> IsPair(pairs[i])
    ensures IsWellFormed(PairsText(pairs))
    decreases pairs, 0
  {
    hide IsWellFormed, ItemText, IsItem, StringText, PairsText, AreSpaces, AreChars;
    PunctuationIsWellFormed();
    var p := pairs[0];
    SpacesAreWellFormed(p.before);
    StringIsPlain(p.key);
    SpacesAreWellFormed(p.after);
    ItemIsWellFormed(p.item);
    if |pairs| > 1 {
      PairsAreWellFormed(pairs[1..]);
      WellFormedConcat([COMMA], PairsText(pairs[1..]));
    }
    var end := if |pairs| == 1 then [RBRACE] else [COMMA] + PairsText(pairs[1..]);
    PairsTextUnfold(pairs);
    WellFormedConcat(p.before, StringText(p.key));
    WellFormedConcat(p.before + StringText(p.key), p.after);
    WellFormedConcat(p.before + StringText(p.key) + p.after, [COLON]);
    WellFormedConcat(p.before + StringText(p.key) + p.after + [COLON], ItemText(p.item));
    WellFormedConcat(p.before + StringText(p.key) + p.after + [COLON] + ItemText(p.item), end);
  }

  /** Every JSON text is plain. */
  lemma JsonIsPlain(item: Item)
    requires IsItem(item)
    ensures IsPlainText(ItemText(item))
  {
    hide IsWellFormed, ItemText, Stream, IsPhrase, ArePlain, HasNoTrailingComma, Flatten, TreeOfPhrase;
    ItemIsWellFormed(item);
    ItemStream(item, [], false);
    EmptyStream(false);
    assert ItemText(item) + [] == ItemText(item);
    assert Flatten(TreeOfPhrase(item.val)) + [] == Flatten(TreeOfPhrase(item.val));
    PhraseIsTidy(item.val);
  }

  /** The accepted texts that are plain are exactly the JSON texts of RFC 8259, with unique names and paired surrogates,
      that the strict checks admit and that meet the demands; and what they say is returned. */
  lemma PlainAndAcceptedIffJson(text: bytes, v: Value, opts: Options)
    requires opts.failureMode != Ignore && opts.rules.encoding != Cesu8 && opts.rules.completeParse
    ensures IsPlainText(text) && Parse(text, opts) == Returned(v) <==>
      exists item :: ItemText(item) == text && IsAcceptable(item, opts.rules) && v == PhraseRead(item.val)
  {
    hide Parse, IsPlainText, ItemText, IsPhrase, IsInteroperable, IsAdmitted, MeetsDemands, PhraseRead, IsItem;
    if IsPlainText(text) && Parse(text, opts) == Returned(v) {
      var item := PlainIsItem(text, opts);
      ItemIsParsed(item, opts);
    }
    if item :| ItemText(item) == text && IsAcceptable(item, opts.rules) && v == PhraseRead(item.val) {
      JsonIsPlain(item);
      ItemIsParsed(item, opts);
    }
  }

  /** So what the default options accept beyond RFC 8259 is not plain. */
  lemma DefaultAcceptsJson(text: bytes)
    ensures IsPlainText(text) && Parse(text, DEFAULT_OPTIONS).Returned? <==>
      exists item :: ItemText(item) == text && IsItem(item) && IsInteroperable(item.val)
  {
    hide Parse, IsPlainText, ItemText, IsPhrase, IsInteroperable, IsAdmitted, PhraseRead, IsItem;
    if IsPlainText(text) && Parse(text, DEFAULT_OPTIONS).Returned? {
      var item := PlainIsItem(text, DEFAULT_OPTIONS);
    }
    if item :| ItemText(item) == text && IsItem(item) && IsInteroperable(item.val) {
      EverythingIsAdmitted(item.val, DEFAULT_OPTIONS.rules);
      JsonIsPlain(item);
      ItemIsParsed(item, DEFAULT_OPTIONS);
    }
  }
}
