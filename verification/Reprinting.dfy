/** What the parser returns for well-formed UTF-8 can be printed and parsed again. */
module Reprinting {
  import opened Bytes
  import opened Json
  import opened Utf8
  import opened StringCodec
  import opened CodecTheorems
  import opened TokenPatterns
  import opened Tokenizing
  import opened ParserSpec
  import opened Grammar
  import opened GrammarTheorems
  import opened Encoders
  import opened RoundTrip

  // ---- cutting well-formed UTF-8 --------------------------------------------------------------------------------

  predicate IsAscii(s: bytes) { forall i :: 0 <= i < |s| ==> s[i] < 0x80 }

  /** A place that is not inside a character. */
  predicate IsBoundary(s: bytes, k: nat)
    requires k <= |s|
  {
    k == 0 || k == |s| || s[k - 1] < 0x80 || s[k] < 0x80
  }

  lemma CharacterBytes(s: bytes, k: nat)
    requires WellFormedLength(s) > 1 && k < WellFormedLength(s)
    ensures s[k] >= 0x80 && s[0] >= 0xC0
    ensures k > 0 ==> IsContinuation(s[k])
  {
  }

  lemma CharacterPrefix(s: bytes, k: nat)
    requires WellFormedLength(s) > 0 && WellFormedLength(s) <= k <= |s|
    ensures WellFormedLength(s[..k]) == WellFormedLength(s)
  {
  }

  lemma {:induction false} Cut(s: bytes, k: nat)
    requires IsWellFormed(s) && k <= |s| && IsBoundary(s, k)
    ensures IsWellFormed(s[..k]) && IsWellFormed(s[k..])
    decreases |s|
  {
    hide WellFormedLength;
    if k == 0 {
      assert s[0..] == s;
    } else if k == |s| {
      assert s[..k] == s;
    } else {
      var n := WellFormedLength(s);
      if k < n {
        CharacterBytes(s, k);
        CharacterBytes(s, k - 1);
      }
      CharacterPrefix(s, k);
      Cut(s[n..], k - n);
      assert s[..k][n..] == s[n..][..k - n];
      assert s[n..][k - n..] == s[k..];
    }
  }

  lemma {:induction false} AsciiIsWellFormed(s: bytes)
    requires IsAscii(s)
    ensures IsWellFormed(s)
  {
    if s != [] {
      AsciiIsWellFormed(s[1..]);
    }
  }

  // ---- decoding -------------------------------------------------------------------------------------------------

  lemma {:induction false} DecodeContinuations(encoding: Encoding, s: bytes, k: nat)
    requires k <= |s| && forall i :: 0 <= i < k ==> IsContinuation(s[i])
    ensures Decode(encoding, s, k) == Prepend(s[..k], Decode(encoding, s[k..], 0))
    decreases k
  {
    if k == 0 {
      assert s[0..] == s;
      PrependNothing(Decode(encoding, s, 0));
      assert s[..0] == [];
    } else {
      DecodeContinuations(encoding, s[1..], k - 1);
      assert s[1..][k - 1..] == s[k..];
      assert [s[0]] + s[1..][..k - 1] == s[..k];
      PrependTwice([s[0]], s[1..][..k - 1], Decode(encoding, s[k..], 0));
    }
  }

  /** The decoder passes a whole character on. */
  lemma DecodeCharacter(encoding: Encoding, s: bytes)
    requires WellFormedLength(s) > 0 && s[0] != BACKSLASH && Decode(encoding, s, 0).Some?
    ensures Decode(encoding, s, 0) == Prepend(s[..WellFormedLength(s)], Decode(encoding, s[WellFormedLength(s)..], 0))
  {
    var n := WellFormedLength(s);
    assert LeadLength(s[0]) == n;
    forall i | 0 <= i < n - 1 ensures IsContinuation(s[1..][i]) {
      CharacterBytes(s, i + 1);
    }
    DecodeContinuations(encoding, s[1..], n - 1);
    assert s[1..][n - 1..] == s[n..];
    assert [s[0]] + s[1..][..n - 1] == s[..n];
    PrependTwice([s[0]], s[1..][..n - 1], Decode(encoding, s[n..], 0));
  }

  lemma EscapeIsAscii(encoding: Encoding, s: bytes)
    requires s != [] && s[0] == BACKSLASH && Unescape(encoding, s).Some?
    ensures s[Unescape(encoding, s).value.length - 1] < 0x80
  {
  }

  lemma {:induction false} WellFormedAppend(code: nat, rest: bytes)
    requires IsScalar(code) && IsWellFormed(rest)
    ensures IsWellFormed(Utf8Of(code) + rest)
  {
    hide Utf8Of, WellFormedLength;
    ScalarUnit(code, rest);
    assert (Utf8Of(code) + rest)[|Utf8Of(code)|..] == rest;
  }

  /** What an escape stands for is one character. */
  lemma EscapeIsCharacter(encoding: Encoding, s: bytes) returns (code: nat)
    requires s != [] && s[0] == BACKSLASH && Unescape(encoding, s).Some? && encoding != Cesu8
    ensures IsScalar(code) && Unescape(encoding, s).value.text == Utf8Of(code)
  {
    hide Combine, FromHex4;
    if UnescapeLetter(s[1]).Some? {
      code := UnescapeLetter(s[1]).value;
      AsciiText(code);
    } else {
      var high := FromHex4(s[2..]).value;
      if IsSurrogate(high) {
        code := Combine(high, FromHex4(s[8..]).value).value;
      } else {
        code := high;
      }
    }
  }

  /** Well-formed contents decode to a well-formed string. */
  lemma {:induction false} DecodeKeepsWellFormed(encoding: Encoding, s: bytes)
    requires encoding != Cesu8 && IsWellFormed(s) && Decode(encoding, s, 0).Some?
    ensures IsWellFormed(Decode(encoding, s, 0).value)
    decreases |s|
  {
    hide Unescape, Utf8Of, WellFormedLength;
    if s == [] {
    } else if s[0] == BACKSLASH {
      var n := Unescape(encoding, s).value.length;
      EscapeIsAscii(encoding, s);
      Cut(s, n);
      DecodeKeepsWellFormed(encoding, s[n..]);
      var code := EscapeIsCharacter(encoding, s);
      WellFormedAppend(code, Decode(encoding, s[n..], 0).value);
    } else {
      var n := WellFormedLength(s);
      DecodeCharacter(encoding, s);
      DecodeKeepsWellFormed(encoding, s[n..]);
      WellFormedUnit(s);
      WellFormedAppend(FirstUnit(s).code, Decode(encoding, s[n..], 0).value);
    }
  }

  // ---- tokens ---------------------------------------------------------------------------------------------------

  lemma {:induction false} NumbersAreAscii(s: bytes, state: NumberState, i: nat)
    requires i < RunLength(s, state)
    ensures s[i] < 0x80
  {
    if i > 0 {
      NumbersAreAscii(s[1..], Delta(state, s[0]).value, i - 1);
    }
  }

  lemma {:induction false} SpacesAreAscii(s: bytes, i: nat)
    requires i < SpaceLength(s)
    ensures s[i] < 0x80
  {
    if i > 0 {
      SpacesAreAscii(s[1..], i - 1);
    }
  }

  lemma {:induction false} CommentEndsInSlash(s: bytes, sawAsterisk: bool)
    requires CommentBody(s, sawAsterisk).complete
    ensures CommentBody(s, sawAsterisk).length > 0 && s[CommentBody(s, sawAsterisk).length - 1] == SLASH
  {
    if s[0] == ASTERISK {
      CommentEndsInSlash(s[1..], true);
    } else if !(sawAsterisk && s[0] == SLASH) {
      CommentEndsInSlash(s[1..], false);
    }
  }

  lemma LiteralEnds(s: bytes, kind: Kind, literal: bytes)
    requires literal in {TRUE_TEXT, FALSE_TEXT, NULL_TEXT} && LiteralMatch(s, kind, literal).complete
    ensures LiteralMatch(s, kind, literal).length == |literal| && s[|literal| - 1] < 0x80
  {
    hide CommonPrefix;
    CommonPrefixSpec(s, literal);
  }

  /** A token that is no error ends in an ASCII byte. */
  lemma TokenEnds(s: bytes)
    requires s != [] && MatchOf(s).complete
    ensures 1 <= MatchOf(s).length <= |s| && s[MatchOf(s).length - 1] < 0x80
  {
    hide CommonPrefix, StringBody, CommentBody, SpaceLength, RunLength, RunState, LiteralMatch;
    MatchLength(s);
    var c, n := s[0], MatchOf(s).length;
    if c == LOWER_T {
      LiteralEnds(s, Boolean, TRUE_TEXT);
    } else if c == LOWER_F {
      LiteralEnds(s, Boolean, FALSE_TEXT);
    } else if c == LOWER_N {
      LiteralEnds(s, Kind.Null, NULL_TEXT);
    } else if c == MINUS || IsDigit(c) {
      NumbersAreAscii(s, Start, n - 1);
    } else if c == QUOTE {
      BodyIsEscaped(s[1..]);
    } else if IsSpace(c) {
      SpacesAreAscii(s, n - 1);
    } else if c == SLASH {
      CommentEndsInSlash(s[2..], false);
    }
  }

  /** The first token of well-formed UTF-8 leaves well-formed UTF-8, and the contents of a string are such. */
  lemma FirstTokenIsWellFormed(s: bytes)
    requires s != [] && IsWellFormed(s) && !FirstToken(s).error
    ensures IsWellFormed(s[|FirstToken(s).text|..])
    ensures FirstToken(s).kind == String ==> IsWellFormed(Inner(FirstToken(s).text))
  {
    hide IsWellFormed, MatchOf, StringBody;
    var t := FirstToken(s);
    var n := |t.text|;
    MatchedToken(s, MatchOf(s));
    TokenEnds(s);
    Cut(s, n);
    if t.kind == String {
      assert IsLexed(t);
      LexedString(t);
      assert t.text == s[..n];
      Cut(t.text, n - 1);
      assert t.text[..n - 1][1..] == Inner(t.text);
      Cut(t.text[..n - 1], 1);
    }
  }

  ghost predicate CleanStrings(ts: seq<Token>) {
    forall i :: 0 <= i < |ts| && ts[i].kind == String ==> IsWellFormed(Inner(ts[i].text))
  }

  ghost predicate NoErrors(ts: seq<Token>) { forall i :: 0 <= i < |ts| ==> !ts[i].error }

  lemma {:induction false} StreamIsClean(s: bytes, comments: bool, ts: seq<Token>, rest: seq<Token>)
    requires IsWellFormed(s) && Stream(s, comments) == ts + rest && NoErrors(ts)
    ensures CleanStrings(ts)
    decreases |s|
  {
    hide IsWellFormed, FirstToken, Inner;
    if ts != [] {
      var t := FirstToken(s);
      var more := Stream(s[|t.text|..], comments);
      if IsSkipped(t, comments) {
        assert more == ts + rest;
        FirstTokenIsWellFormed(s);
        StreamIsClean(s[|t.text|..], comments, ts, rest);
      } else {
        assert (ts + rest)[0] == t;
        FirstTokenIsWellFormed(s);
        assert more == Stream(s, comments)[1..];
        assert (ts + rest)[1..] == ts[1..] + rest;
        StreamIsClean(s[|t.text|..], comments, ts[1..], rest);
        assert ts == [t] + ts[1..];
      }
    }
  }

  // ---- values ---------------------------------------------------------------------------------------------------

  lemma ConcatIsClean(a: seq<Token>, b: seq<Token>)
    ensures CleanStrings(a + b) <==> CleanStrings(a) && CleanStrings(b)
    ensures NoErrors(a + b) <==> NoErrors(a) && NoErrors(b)
  {
    assert forall i :: 0 <= i < |a| ==> (a + b)[i] == a[i];
    assert forall i :: 0 <= i < |b| ==> (a + b)[|a| + i] == b[i];
  }

  lemma {:induction false} FlattenHasNoErrors(t: Tree, rules: Rules)
    requires IsValue(t, rules)
    ensures NoErrors(Flatten(t))
    decreases t, 1
  {
    hide FlattenItems, FlattenFields;
    match t
    case Leaf(_) =>
    case ArrayTree(items, trailing) =>
      ItemsHaveNoErrors(items, trailing, rules);
      ConcatIsClean([OPEN_ARRAY], FlattenItems(items, trailing));
    case ObjectTree(fields, trailing) =>
      FieldsHaveNoErrors(fields, trailing, rules);
      ConcatIsClean([OPEN_OBJECT], FlattenFields(fields, trailing));
  }

  lemma {:induction false} ItemsHaveNoErrors(items: seq<Tree>, trailing: bool, rules: Rules)
    requires forall i :: 0 <= i < |items| ==> IsValue(items[i], rules)
    ensures NoErrors(FlattenItems(items, trailing))
    decreases items, 0
  {
    hide Flatten, IsValue;
    if items != [] {
      FlattenHasNoErrors(items[0], rules);
      ItemsHaveNoErrors(items[1..], trailing, rules);
      var more := [COMMA_TOKEN] + FlattenItems(items[1..], trailing);
      ConcatIsClean([COMMA_TOKEN], FlattenItems(items[1..], trailing));
      ConcatIsClean(Flatten(items[0]), more);
      ConcatIsClean(Flatten(items[0]), [CLOSE_ARRAY]);
    }
  }

  lemma {:induction false} FieldsHaveNoErrors(fields: seq<Field>, trailing: bool, rules: Rules)
    requires forall i :: 0 <= i < |fields| ==> IsKey(fields[i], rules) && IsValue(fields[i].val, rules)
    ensures NoErrors(FlattenFields(fields, trailing))
    decreases fields, 0
  {
    hide Flatten, IsValue, Decoded;
    if fields != [] {
      assert fields[0].val < fields[0];
      FlattenHasNoErrors(fields[0].val, rules);
      FieldsHaveNoErrors(fields[1..], trailing, rules);
      var head := [fields[0].key, COLON_TOKEN] + Flatten(fields[0].val);
      var more := [COMMA_TOKEN] + FlattenFields(fields[1..], trailing);
      ConcatIsClean([fields[0].key, COLON_TOKEN], Flatten(fields[0].val));
      ConcatIsClean([COMMA_TOKEN], FlattenFields(fields[1..], trailing));
      ConcatIsClean(head, more);
      ConcatIsClean(head, [CLOSE_OBJECT]);
    }
  }

  /** What the parser may return: objects in key order, strings in well-formed UTF-8. */
  ghost predicate IsUtf8Value(v: Value) { WellFormed(v) && HasUtf8Strings(v) }

  ghost predicate AreUtf8Members(ms: seq<Member>) {
    Sorted(ms) && forall i :: 0 <= i < |ms| ==> IsWellFormed(ms[i].key) && IsUtf8Value(ms[i].val)
  }

  lemma PutUtf8(ms: seq<Member>, key: bytes, val: Value)
    requires AreUtf8Members(ms) && IsWellFormed(key) && IsUtf8Value(val)
    ensures AreUtf8Members(Put(ms, key, val))
  {
    hide Put, Sorted, IsWellFormed, IsUtf8Value;
    PutSorted(ms, key, val);
    var r := Put(ms, key, val);
    forall i | 0 <= i < |r| ensures IsWellFormed(r[i].key) && IsUtf8Value(r[i].val) {
      PutMember(ms, key, val, r[i]);
    }
  }

  /** A derivation from clean tokens means such a value. */
  lemma {:induction false} MeaningIsUtf8(t: Tree, rules: Rules)
    requires IsValue(t, rules) && CleanStrings(Flatten(t)) && rules.encoding != Cesu8
    ensures IsUtf8Value(Meaning(t, rules))
    decreases t, 1
  {
    hide FlattenItems, FlattenFields, ItemMeanings, FieldMeanings, IsWellFormed, Decode;
    match t
    case Leaf(token) =>
      if token.kind == String {
        assert Flatten(t)[0] == token;
        DecodeKeepsWellFormed(rules.encoding, Inner(token.text));
      }
    case ArrayTree(items, trailing) =>
      ConcatIsClean([OPEN_ARRAY], FlattenItems(items, trailing));
      ItemsAreUtf8(items, trailing, rules);
    case ObjectTree(fields, trailing) =>
      ConcatIsClean([OPEN_OBJECT], FlattenFields(fields, trailing));
      FieldsAreUtf8(fields, trailing, rules, []);
  }

  lemma {:induction false} ItemsAreUtf8(items: seq<Tree>, trailing: bool, rules: Rules)
    requires forall i :: 0 <= i < |items| ==> IsValue(items[i], rules)
    requires CleanStrings(FlattenItems(items, trailing)) && rules.encoding != Cesu8
    ensures forall i :: 0 <= i < |ItemMeanings(items, rules)| ==> IsUtf8Value(ItemMeanings(items, rules)[i])
    decreases items, 0
  {
    hide Flatten, IsValue, Meaning, CleanStrings, IsUtf8Value;
    if items != [] {
      var more := [COMMA_TOKEN] + FlattenItems(items[1..], trailing);
      if |items| == 1 && !trailing {
        ConcatIsClean(Flatten(items[0]), [CLOSE_ARRAY]);
        NoItemsAreClean();
      } else {
        ConcatIsClean(Flatten(items[0]), more);
        ConcatIsClean([COMMA_TOKEN], FlattenItems(items[1..], trailing));
      }
      MeaningIsUtf8(items[0], rules);
      if |items| > 1 {
        ItemsAreUtf8(items[1..], trailing, rules);
      }
    }
  }

  lemma NoItemsAreClean()
    ensures CleanStrings([CLOSE_ARRAY]) && CleanStrings([CLOSE_OBJECT])
  {
  }

  lemma {:induction false} FieldsAreUtf8(fields: seq<Field>, trailing: bool, rules: Rules, members: seq<Member>)
    requires forall i :: 0 <= i < |fields| ==> IsKey(fields[i], rules) && IsValue(fields[i].val, rules)
    requires CleanStrings(FlattenFields(fields, trailing)) && rules.encoding != Cesu8
    requires AreUtf8Members(members)
    ensures AreUtf8Members(FieldMeanings(fields, rules, members))
    decreases fields, 0
  {
    hide Flatten, IsValue, Meaning, CleanStrings, IsUtf8Value, AreUtf8Members, Put, Key;
    if fields != [] {
      var f := fields[0];
      assert f.val < fields[0];
      var head := [f.key, COLON_TOKEN] + Flatten(f.val);
      var more := [COMMA_TOKEN] + FlattenFields(fields[1..], trailing);
      ConcatIsClean([f.key, COLON_TOKEN], Flatten(f.val));
      if |fields| == 1 && !trailing {
        ConcatIsClean(head, [CLOSE_OBJECT]);
        NoItemsAreClean();
      } else {
        ConcatIsClean(head, more);
        ConcatIsClean([COMMA_TOKEN], FlattenFields(fields[1..], trailing));
      }
      KeyIsUtf8(f, rules);
      MeaningIsUtf8(f.val, rules);
      var next := Put(members, Key(f, rules), Meaning(f.val, rules));
      PutUtf8(members, Key(f, rules), Meaning(f.val, rules));
      if |fields| > 1 {
        FieldsAreUtf8(fields[1..], trailing, rules, next);
      }
    }
  }

  lemma KeyIsUtf8(f: Field, rules: Rules)
    requires IsKey(f, rules) && CleanStrings([f.key, COLON_TOKEN]) && rules.encoding != Cesu8
    ensures IsWellFormed(Key(f, rules))
  {
    hide Decode, IsWellFormed;
    assert [f.key, COLON_TOKEN][0] == f.key;
    DecodeKeepsWellFormed(rules.encoding, Inner(f.key.text));
  }

  // ---- the theorems ---------------------------------------------------------------------------------------------

  /** From well-formed UTF-8 the parser returns objects in key order and strings in well-formed UTF-8. */
  lemma ParsedIsUtf8(text: bytes, opts: Options, v: Value)
    requires IsWellFormed(text) && opts.failureMode != Ignore && opts.rules.encoding != Cesu8
    requires Parse(text, opts) == Returned(v)
    ensures WellFormed(v) && HasUtf8Strings(v)
  {
    hide Parse, IsWellFormed, WellFormed, HasUtf8Strings, Stream, Flatten, IsValue, Meaning, CleanStrings, NoErrors;
    ParseIffGrammar(text, opts, v);
    var t, rest :| Derives(t, rest, text, opts.rules, v);
    FlattenHasNoErrors(t, opts.rules);
    StreamIsClean(text, opts.rules.comments, Flatten(t), rest);
    MeaningIsUtf8(t, opts.rules);
  }

  /** Printing what was parsed, in either style, and parsing it again gives the same value. */
  lemma ReprintIsStable(text: bytes, opts: Options, v: Value, style: Style)
    requires IsWellFormed(text) && opts.failureMode != Ignore && opts.rules.encoding != Cesu8
    requires Parse(text, opts) == Returned(v) && DecimalFree(v)
    ensures Parse(Text(v, style, 0), opts) == Returned(v)
  {
    hide Parse, IsWellFormed, WellFormed, HasUtf8Strings, Stream, Flatten, IsValue, Meaning, Depth, Text;
    ParsedIsUtf8(text, opts, v);
    ParseIffGrammar(text, opts, v);
    var t, rest :| Derives(t, rest, text, opts.rules, v);
    ParserUndoesPrinter(v, style, opts);
  }

  lemma EncodedIsClean(s: bytes)
    ensures IsWellFormed(Inner(Quoted(s)))
  {
    hide IsWellFormed, Encode;
    EncodedIsPrintable(s);
    AsciiIsWellFormed(Encode(s));
    assert Inner(Quoted(s)) == Encode(s);
  }

  /** The strings in the text of a tree are ASCII. */
  lemma {:induction false} TreeIsClean(v: Value, show: ShowDecimal)
    requires DecimalFree(v)
    ensures CleanStrings(Flatten(TreeOf(v, show)))
    decreases v, 1
  {
    hide FlattenItems, FlattenFields, TreesOf, FieldsOf, IsWellFormed, Inner, Quoted;
    if v.Arr? {
      ItemsAreClean(v.items, show);
      ConcatIsClean([OPEN_ARRAY], FlattenItems(TreesOf(v.items, show), false));
    } else if v.Obj? {
      MembersAreClean(v.members, show);
      ConcatIsClean([OPEN_OBJECT], FlattenFields(FieldsOf(v.members, show), false));
    } else if v.Str? {
      EncodedIsClean(v.s);
    }
  }

  lemma {:induction false} ItemsAreClean(items: seq<Value>, show: ShowDecimal)
    requires AllDecimalFree(items)
    ensures CleanStrings(FlattenItems(TreesOf(items, show), false))
    decreases items, 0
  {
    hide Flatten, CleanStrings, TreeOf, FlattenItems, TreesOf, DecimalFree;
    NoItemsAreClean();
    if items == [] {
      NoTrees(show);
    } else {
      TreesSplit(items, show);
      TreeIsClean(items[0], show);
      ConcatIsClean(Flatten(TreeOf(items[0], show)), [CLOSE_ARRAY]);
      if |items| > 1 {
        ItemsAreClean(items[1..], show);
        var more := FlattenItems(TreesOf(items[1..], show), false);
        CommaIsClean();
        ConcatIsClean([COMMA_TOKEN], more);
        ConcatIsClean(Flatten(TreeOf(items[0], show)), [COMMA_TOKEN] + more);
      }
    }
  }

  lemma CommaIsClean()
    ensures CleanStrings([COMMA_TOKEN])
  {
  }

  lemma KeyIsClean(key: bytes)
    ensures CleanStrings([KeyToken(key), COLON_TOKEN])
  {
    hide IsWellFormed, Inner, Quoted;
    EncodedIsClean(key);
  }

  lemma {:induction false} MembersAreClean(ms: seq<Member>, show: ShowDecimal)
    requires ValuesDecimalFree(ms)
    ensures CleanStrings(FlattenFields(FieldsOf(ms, show), false))
    decreases ms, 0
  {
    hide Flatten, CleanStrings, TreeOf, FlattenFields, FieldsOf, KeyToken, DecimalFree;
    NoItemsAreClean();
    if ms == [] {
      NoTrees(show);
    } else {
      assert ms[0].val < ms[0];
      var head := [KeyToken(ms[0].key), COLON_TOKEN] + Flatten(TreeOf(ms[0].val, show));
      FieldsSplit(ms, show);
      KeyIsClean(ms[0].key);
      TreeIsClean(ms[0].val, show);
      ConcatIsClean([KeyToken(ms[0].key), COLON_TOKEN], Flatten(TreeOf(ms[0].val, show)));
      ConcatIsClean(head, [CLOSE_OBJECT]);
      if |ms| > 1 {
        MembersAreClean(ms[1..], show);
        var more := FlattenFields(FieldsOf(ms[1..], show), false);
        CommaIsClean();
        ConcatIsClean([COMMA_TOKEN], more);
        ConcatIsClean(head, [COMMA_TOKEN] + more);
      }
    }
  }

  /** Exactly which trees the parser gets back from their text: those whose strings are well-formed UTF-8 and that
      a depth limit or the demand for a document does not exclude. */
  lemma PrintedIsParsedBack(v: Value, style: Style, opts: Options)
    requires WellFormed(v) && DecimalFree(v)
    requires opts.failureMode != Ignore && opts.rules.encoding != Cesu8
    ensures Parse(Text(v, style, 0), opts) == Returned(v) <==>
      && HasUtf8Strings(v)
      && (opts.rules.requireDocument ==> IsContainer(v))
      && (opts.rules.maxDepth > 0 ==> Depth(v) < opts.rules.maxDepth)
  {
    if HasUtf8Strings(v) {
      ParserUndoesPrinter(v, style, opts);
    } else if Parse(Text(v, style, 0), opts) == Returned(v) {
      ParsedBackIsUtf8(v, style, opts);
    }
  }

  lemma ParsedBackIsUtf8(v: Value, style: Style, opts: Options)
    requires WellFormed(v) && DecimalFree(v)
    requires opts.failureMode != Ignore && opts.rules.encoding != Cesu8
    requires Parse(Text(v, style, 0), opts) == Returned(v)
    ensures HasUtf8Strings(v)
  {
    hide Parse, Stream, Text, IsValue, Meaning, Flatten, TreeOf, Depth, WellFormed, HasUtf8Strings, CleanStrings;
    var text := Text(v, style, 0);
    ParseIffGrammar(text, opts, v);
    var t, rest :| Derives(t, rest, text, opts.rules, v);
    DecimalFreePrints(v, style.show);
    TextStream(v, style, 0, [], opts.rules.comments);
    EmptyStream(opts.rules.comments);
    assert text + [] == text;
    assert Flatten(TreeOf(v, style.show)) + [] == Flatten(TreeOf(v, style.show));
    TreeIsClean(v, style.show);
    ConcatIsClean(Flatten(t), rest);
    MeaningIsUtf8(t, opts.rules);
  }
}
