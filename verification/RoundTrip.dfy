/** The parser undoes both encoders. */
module RoundTrip {
  import opened Bytes
  import opened Json
  import opened Integers
  import opened Utf8
  import opened StringCodec
  import opened CodecTheorems
  import opened TokenPatterns
  import opened NumberGrammar
  import opened Tokenizing
  import opened ParserSpec
  import opened Grammar
  import opened GrammarTheorems
  import opened Encoders

  // ---- an encoded string is one token ---------------------------------------------------------------------------

  /** Bytes that mean nothing to the string scanner are passed over. */
  lemma {:induction false} BodySkips(t: bytes, rest: bytes)
    requires forall i :: 0 <= i < |t| ==> t[i] != QUOTE && t[i] != BACKSLASH
    ensures StringBody(t + rest) == Longer(StringBody(rest), |t|)
  {
    if t == [] {
      assert t + rest == rest;
    } else {
      assert (t + rest)[1..] == t[1..] + rest;
      BodySkips(t[1..], rest);
    }
  }

  lemma BodySkipsPiece(p: Piece, rest: bytes)
    ensures StringBody(PieceText(p) + rest) == Longer(StringBody(rest), |PieceText(p)|)
  {
    var s := PieceText(p) + rest;
    match p
    case Plain(c) =>
      BodySkips([c], rest);
    case Letter(c) =>
      assert s[2..] == rest;
    case Hex(code) =>
      assert s[2..] == Hex4(code) + rest;
      BodySkips(Hex4(code), rest);
  }

  lemma {:induction false} BodyOfPieces(ps: seq<Piece>, rest: bytes)
    ensures StringBody(PiecesText(ps) + ([QUOTE] + rest)) == Span(true, |PiecesText(ps)| + 1)
  {
    hide PieceText;
    if ps == [] {
      assert [] + ([QUOTE] + rest) == [QUOTE] + rest;
    } else {
      var more := PiecesText(ps[1..]) + ([QUOTE] + rest);
      assert PiecesText(ps) + ([QUOTE] + rest) == PieceText(ps[0]) + more;
      BodySkipsPiece(ps[0], more);
      BodyOfPieces(ps[1..], rest);
    }
  }

  lemma QuoteMatch(s: bytes)
    requires s != [] && s[0] == QUOTE
    ensures MatchOf(s) == SpanMatch(String, Longer(StringBody(s[1..]), 1))
  {
  }

  /** Once quoted, the encoding of any byte string is exactly one string token, whatever follows. */
  lemma EncodedIsOneToken(s: bytes, rest: bytes)
    ensures FirstToken(Quoted(s) + rest) == Token(Quoted(s), String, false)
  {
    hide StringBody, MatchOf, Encode, PiecesText, FirstToken;
    EncodeIsPieces(s);
    BodyOfPieces(Pieces(s), rest);
    var text := Quoted(s) + rest;
    assert text[1..] == Encode(s) + ([QUOTE] + rest);
    QuoteMatch(text);
    MatchedToken(text, MatchOf(text));
    assert text[..|Quoted(s)|] == Quoted(s);
  }

  lemma {:induction false} PiecesArePrintable(ps: seq<Piece>)
    ensures forall i :: 0 <= i < |PiecesText(ps)| ==> IsPrint(PiecesText(ps)[i])
  {
    if ps != [] {
      PiecesArePrintable(ps[1..]);
      assert forall i :: 0 <= i < |PieceText(ps[0])| ==> IsPrint(PieceText(ps[0])[i]);
    }
  }

  /** And it is printable ASCII. */
  lemma EncodedIsPrintable(s: bytes)
    ensures forall i :: 0 <= i < |Encode(s)| ==> IsPrint(Encode(s)[i])
  {
    EncodeIsPieces(s);
    PiecesArePrintable(Pieces(s));
  }

  // ---- the tokens of an encoded tree ----------------------------------------------------------------------------

  function TokenOf(v: Value, show: ShowDecimal): Token
    requires !IsContainer(v)
  {
    match v
    case Null => Token(NULL_TEXT, Kind.Null, false)
    case Bool(b) => Token(if b then TRUE_TEXT else FALSE_TEXT, Boolean, false)
    case Int(n) => Token(Show(n), Number, false)
    case Decimal(d) =>
      match show(d) {
        case Some(text) => Token(text, Number, false)
        case None => Token(NULL_TEXT, Kind.Null, false)
      }
    case Str(s) => Token(Quoted(s), String, false)
  }

  /** The doubles in a tree are printed as numbers of section 6 of RFC 8259, or are not finite. */
  ghost predicate PrintsNumbers(v: Value, show: ShowDecimal) {
    match v
    case Decimal(d) => show(d).Some? ==> IsRfcNumber(show(d).value)
    case Arr(items) => forall i :: 0 <= i < |items| ==> PrintsNumbers(items[i], show)
    case Obj(ms) => forall i :: 0 <= i < |ms| ==> PrintsNumbers(ms[i].val, show)
    case _ => true
  }

  ghost predicate ItemsPrintNumbers(items: seq<Value>, show: ShowDecimal) {
    forall i :: 0 <= i < |items| ==> PrintsNumbers(items[i], show)
  }

  ghost predicate MembersPrintNumbers(ms: seq<Member>, show: ShowDecimal) {
    forall i :: 0 <= i < |ms| ==> PrintsNumbers(ms[i].val, show)
  }

  /** In particular a tree without doubles does. */
  lemma {:induction false} DecimalFreePrints(v: Value, show: ShowDecimal)
    requires DecimalFree(v)
    ensures PrintsNumbers(v, show)
  {
    if v.Arr? {
      forall i | 0 <= i < |v.items| ensures PrintsNumbers(v.items[i], show) {
        DecimalFreePrints(v.items[i], show);
      }
    } else if v.Obj? {
      forall i | 0 <= i < |v.members| ensures PrintsNumbers(v.members[i].val, show) {
        DecimalFreePrints(v.members[i].val, show);
      }
    }
  }

  function KeyToken(key: bytes): Token { Token(Quoted(key), String, false) }

  /** The derivation of an encoded tree. */
  function TreeOf(v: Value, show: ShowDecimal): Tree
    decreases v, 1
  {
    if v.Arr? then ArrayTree(TreesOf(v.items, show), false)
    else if v.Obj? then ObjectTree(FieldsOf(v.members, show), false)
    else Leaf(TokenOf(v, show))
  }

  function TreesOf(items: seq<Value>, show: ShowDecimal): (r: seq<Tree>)
    ensures |r| == |items| && forall i :: 0 <= i < |r| ==> r[i] == TreeOf(items[i], show)
    decreases items, 0
  {
    if items == [] then [] else [TreeOf(items[0], show)] + TreesOf(items[1..], show)
  }

  function FieldsOf(members: seq<Member>, show: ShowDecimal): (r: seq<Field>)
    ensures |r| == |members|
    ensures forall i :: 0 <= i < |r| ==> r[i] == Field(KeyToken(members[i].key), TreeOf(members[i].val, show))
    decreases members, 0
  {
    if members == [] then []
    else
      assert members[0].val < members[0];
      [Field(KeyToken(members[0].key), TreeOf(members[0].val, show))] + FieldsOf(members[1..], show)
  }

  /** What may follow a value: nothing that would make a number longer. */
  predicate Stops(rest: bytes) { rest == [] || Delta(Whole, rest[0]).None? }

  lemma LiteralToken(s: bytes, rest: bytes, kind: Kind)
    requires (s, kind) in {(TRUE_TEXT, Boolean), (FALSE_TEXT, Boolean), (NULL_TEXT, Kind.Null)}
    ensures FirstToken(s + rest) == Token(s, kind, false)
  {
    hide CommonPrefix;
    CommonPrefixSpec(s + rest, s);
    assert (s + rest)[..|s|] == s;
  }

  lemma DigitsAreRead(minus: bool, digits: bytes)
    requires AreDigits(digits)
    ensures Reads(Start, (if minus then [MINUS] else []) + digits, Whole)
  {
    if minus {
      ReadsByte(Start, MINUS, AfterMinus);
      ReadsDigits(AfterMinus, digits, Whole);
      ReadsConcat(Start, [MINUS], AfterMinus, digits, Whole);
    } else {
      ReadsDigits(Start, digits, Whole);
      assert [] + digits == digits;
    }
  }

  lemma NumberToken(n: int64, rest: bytes)
    requires Stops(rest)
    ensures FirstToken(Show(n) + rest) == Token(Show(n), Number, false)
  {
    var s := Show(n);
    DigitsAreRead(n < 0, Integers.Digits(Magnitude(n)));
    RunExtends(s, rest, Start);
    assert (s + rest)[0] == s[0] && (s + rest)[..|s|] == s;
  }

  lemma StopsNumber(state: NumberState, c: byte)
    requires Accepting(state) && Delta(Whole, c).None?
    ensures Delta(state, c).None?
  {
  }

  lemma RunOfNothing(rest: bytes, state: NumberState)
    requires Stops(rest) && Accepting(state)
    ensures RunLength(rest, state) == 0 && RunState(rest, state) == state
  {
    if rest != [] && Delta(state, rest[0]).Some? {
      StopsNumber(state, rest[0]);
    }
  }

  lemma StartsWithDigit(f: NumberForm)
    requires IsForm(f)
    ensures FormText(f) != [] && (FormText(f)[0] == MINUS || IsDigit(FormText(f)[0]))
  {
  }

  lemma FormIsToken(f: NumberForm, rest: bytes)
    requires IsForm(f) && Stops(rest)
    ensures FirstToken(FormText(f) + rest) == Token(FormText(f), Number, false)
  {
    hide FormText, RunLength, RunState;
    var s := FormText(f);
    FormIsRead(f);
    RunExtends(s, rest, Start);
    RunOfNothing(rest, RunState(s, Start));
    if rest != [] {
      StopsNumber(RunState(s, Start), rest[0]);
    }
    StartsWithDigit(f);
    assert (s + rest)[0] == s[0] && (s + rest)[..|s|] == s;
  }

  lemma DecimalFirst(d: Double, show: ShowDecimal, rest: bytes)
    requires PrintsNumbers(Value.Decimal(d), show) && Stops(rest)
    ensures DecimalText(d, show) != []
    ensures FirstToken(DecimalText(d, show) + rest) == TokenOf(Value.Decimal(d), show)
  {
    hide FirstToken, FormText;
    match show(d)
    case Some(text) =>
      var f :| IsForm(f) && FormText(f) == text;
      StartsWithDigit(f);
      FormIsToken(f, rest);
    case None =>
      LiteralToken(NULL_TEXT, rest, Kind.Null);
  }

  lemma ScalarFirst(v: Value, show: ShowDecimal, rest: bytes)
    requires !IsContainer(v) && PrintsNumbers(v, show) && Stops(rest)
    ensures ScalarText(v, show) != [] && TokenOf(v, show).text == ScalarText(v, show)
    ensures FirstToken(ScalarText(v, show) + rest) == TokenOf(v, show)
  {
    hide FirstToken, Show;
    match v
    case Null => LiteralToken(NULL_TEXT, rest, Kind.Null);
    case Bool(b) => LiteralToken(ScalarText(v, show), rest, Boolean);
    case Int(n) =>
      NumberToken(n, rest);
      ShowsSomething(n);
    case Decimal(d) => DecimalFirst(d, show, rest);
    case Str(s) => EncodedIsOneToken(s, rest);
  }

  lemma ShowsSomething(n: int64)
    ensures Show(n) != []
  {
  }

  /** The stream of a text whose first token is significant. */
  lemma StreamStep(text: bytes, rest: bytes, t: Token, comments: bool)
    requires text != [] && FirstToken(text + rest) == t && t.text == text && !IsSkipped(t, comments)
    ensures Stream(text + rest, comments) == [t] + Stream(rest, comments)
  {
    hide FirstToken;
    assert (text + rest)[|text|..] == rest;
  }

  lemma PunctStream(t: Token, rest: bytes, comments: bool)
    requires t in {OPEN_ARRAY, CLOSE_ARRAY, OPEN_OBJECT, CLOSE_OBJECT, COLON_TOKEN, COMMA_TOKEN}
    ensures Stream(t.text + rest, comments) == [t] + Stream(rest, comments)
  {
    assert FirstToken(t.text + rest) == t;
    StreamStep(t.text, rest, t, comments);
  }

  lemma {:induction false} SpacesJoin(ws: bytes, rest: bytes)
    requires forall i :: 0 <= i < |ws| ==> IsSpace(ws[i])
    ensures SpaceLength(ws + rest) == |ws| + SpaceLength(rest)
  {
    if ws == [] {
      assert ws + rest == rest;
    } else {
      assert (ws + rest)[1..] == ws[1..] + rest;
      SpacesJoin(ws[1..], rest);
    }
  }

  /** Whitespace in front of a text, even if it merges with more whitespace, adds nothing to the stream. */
  lemma SpacesVanish(ws: bytes, rest: bytes, comments: bool)
    requires forall i :: 0 <= i < |ws| ==> IsSpace(ws[i])
    ensures Stream(ws + rest, comments) == Stream(rest, comments)
  {
    hide SpaceLength, FirstToken;
    if ws == [] {
      assert ws + rest == rest;
    } else {
      SpacesJoin(ws, rest);
      var s := ws + rest;
      var n := SpaceLength(rest);
      SpaceToken(s);
      assert s[|ws| + n..] == rest[n..];
      assert Stream(s, comments) == [] + Stream(rest[n..], comments);
      SpaceFirst(rest);
      if n > 0 {
        SpaceToken(rest);
        assert Stream(rest, comments) == [] + Stream(rest[n..], comments);
      } else {
        assert rest[0..] == rest;
      }
    }
  }

  lemma SpaceToken(s: bytes)
    requires s != [] && IsSpace(s[0])
    ensures FirstToken(s) == Token(s[..SpaceLength(s)], Whitespace, false)
  {
  }

  lemma SpaceFirst(s: bytes)
    ensures SpaceLength(s) > 0 <==> s != [] && IsSpace(s[0])
  {
  }

  lemma {:induction false} SpacesAreSpace(n: nat)
    ensures forall i :: 0 <= i < |Spaces(n)| ==> IsSpace(Spaces(n)[i])
  {
    if n > 0 {
      SpacesAreSpace(n - 1);
    }
  }

  lemma EolVanishes(style: Style, indent: nat, rest: bytes, comments: bool)
    ensures Stream(Eol(style, indent) + rest, comments) == Stream(rest, comments)
    ensures Stops(rest) ==> Stops(Eol(style, indent) + rest)
  {
    hide Stream;
    SpacesAreSpace(indent);
    SpacesVanish(Eol(style, indent), rest, comments);
    assert [] + rest == rest;
  }

  lemma KeyStream(key: bytes, style: Style, rest: bytes, comments: bool)
    ensures Stream(KeyText(key, style) + rest, comments) == [KeyToken(key), COLON_TOKEN] + Stream(rest, comments)
  {
    hide Stream, Quoted;
    var q := Quoted(key);
    var gap := Gap(style) + rest;
    assert KeyText(key, style) + rest == q + ([Bytes.COLON] + gap);
    EncodedIsOneToken(key, [Bytes.COLON] + gap);
    StreamStep(q, [Bytes.COLON] + gap, KeyToken(key), comments);
    PunctStream(COLON_TOKEN, gap, comments);
    SpacesVanish(Gap(style), rest, comments);
  }

  /** The stream of an encoded tree is the yield of its derivation, in either style and at any indentation. */
  lemma {:induction false} TextStream(v: Value, style: Style, indent: nat, rest: bytes, comments: bool)
    requires PrintsNumbers(v, style.show) && Stops(rest)
    ensures Stream(Text(v, style, indent) + rest, comments) == Flatten(TreeOf(v, style.show)) + Stream(rest, comments)
    decreases v, 1
  {
    hide Stream, ItemsText, MembersText, Eol;
    if v.Arr? {
      ArrayStream(v.items, style, indent, rest, comments);
      assert Flatten(TreeOf(v, style.show)) == [OPEN_ARRAY] + FlattenItems(TreesOf(v.items, style.show), false);
    } else if v.Obj? {
      ObjectStream(v.members, style, indent, rest, comments);
      assert Flatten(TreeOf(v, style.show)) == [OPEN_OBJECT] + FlattenFields(FieldsOf(v.members, style.show), false);
    } else {
      ScalarFirst(v, style.show, rest);
      assert TokenOf(v, style.show).text == ScalarText(v, style.show);
      StreamStep(ScalarText(v, style.show), rest, TokenOf(v, style.show), comments);
    }
  }

  lemma {:induction false} ArrayStream(items: seq<Value>, style: Style, indent: nat, rest: bytes, comments: bool)
    requires ItemsPrintNumbers(items, style.show) && Stops(rest)
    ensures Stream(Text(Arr(items), style, indent) + rest, comments)
         == [OPEN_ARRAY] + FlattenItems(TreesOf(items, style.show), false) + Stream(rest, comments)
    decreases items, 2
  {
    hide Stream, ItemsText, Eol, FlattenItems, TreesOf, Text, Deeper, PrintsNumbers;
    var close := [RBRACKET] + rest;
    PunctStream(CLOSE_ARRAY, rest, comments);
    ArrayText(items, style, indent, rest);
    if items == [] {
      PunctStream(OPEN_ARRAY, close, comments);
      NoTrees(style.show);
    } else {
      var body := ItemsText(items, style, Deeper(style, indent));
      var tail := Eol(style, indent) + close;
      PunctStream(OPEN_ARRAY, body + tail, comments);
      EolVanishes(style, indent, close, comments);
      ItemsStream(items, style, Deeper(style, indent), tail, Stream(rest, comments), comments);
      Regroup3([OPEN_ARRAY], FlattenItems(TreesOf(items, style.show), false), Stream(rest, comments));
    }
  }

  lemma Regroup3(a: seq<Token>, b: seq<Token>, c: seq<Token>)
    ensures a + (b + c) == a + b + c
  {
  }

  lemma ArrayText(items: seq<Value>, style: Style, indent: nat, rest: bytes)
    ensures Text(Arr(items), style, indent) + rest ==
      if items == [] then [LBRACKET] + ([RBRACKET] + rest)
      else [LBRACKET] + (ItemsText(items, style, Deeper(style, indent)) + (Eol(style, indent) + ([RBRACKET] + rest)))
  {
    hide ItemsText, Eol;
    Regroup([LBRACKET], ItemsText(items, style, Deeper(style, indent)), Eol(style, indent), [], [RBRACKET], rest);
  }

  lemma ObjectText(members: seq<Member>, style: Style, indent: nat, rest: bytes)
    ensures Text(Obj(members), style, indent) + rest ==
      if members == [] then [LBRACE] + ([RBRACE] + rest)
      else [LBRACE] + (MembersText(members, style, Deeper(style, indent)) + (Eol(style, indent) + ([RBRACE] + rest)))
  {
    hide MembersText, Eol;
    Regroup([LBRACE], MembersText(members, style, Deeper(style, indent)), Eol(style, indent), [], [RBRACE], rest);
  }

  lemma {:induction false} ObjectStream(members: seq<Member>, style: Style, indent: nat, rest: bytes, comments: bool)
    requires MembersPrintNumbers(members, style.show) && Stops(rest)
    ensures Stream(Text(Obj(members), style, indent) + rest, comments)
         == [OPEN_OBJECT] + FlattenFields(FieldsOf(members, style.show), false) + Stream(rest, comments)
    decreases members, 2
  {
    hide Stream, MembersText, Eol, FlattenFields, FieldsOf, Text, Deeper, PrintsNumbers;
    var close := [RBRACE] + rest;
    PunctStream(CLOSE_OBJECT, rest, comments);
    ObjectText(members, style, indent, rest);
    if members == [] {
      PunctStream(OPEN_OBJECT, close, comments);
      NoTrees(style.show);
    } else {
      var body := MembersText(members, style, Deeper(style, indent));
      var tail := Eol(style, indent) + close;
      PunctStream(OPEN_OBJECT, body + tail, comments);
      EolVanishes(style, indent, close, comments);
      MembersStream(members, style, Deeper(style, indent), tail, Stream(rest, comments), comments);
      Regroup3([OPEN_OBJECT], FlattenFields(FieldsOf(members, style.show), false), Stream(rest, comments));
    }
  }

  lemma NoTrees(show: ShowDecimal)
    ensures FlattenItems(TreesOf([], show), false) == [CLOSE_ARRAY]
    ensures FlattenFields(FieldsOf([], show), false) == [CLOSE_OBJECT]
  {
  }

  /** What follows the first item: the end of the list, or a comma and more items. */
  function AfterItem(items: seq<Value>, style: Style, indent: nat, tail: bytes): bytes
    requires items != []
  {
    if |items| == 1 then tail else [Bytes.COMMA] + (ItemsText(items[1..], style, indent) + tail)
  }

  lemma ItemsTextSplit(items: seq<Value>, style: Style, indent: nat, tail: bytes)
    requires items != []
    ensures ItemsText(items, style, indent) + tail
         == Eol(style, indent) + (Text(items[0], style, indent) + AfterItem(items, style, indent, tail))
  {
    hide Text, Eol;
  }

  lemma TreesSplit(items: seq<Value>, show: ShowDecimal)
    requires items != []
    ensures FlattenItems(TreesOf(items, show), false)
         == Flatten(TreeOf(items[0], show))
            + if |items| == 1 then [CLOSE_ARRAY] else [COMMA_TOKEN] + FlattenItems(TreesOf(items[1..], show), false)
  {
    hide Flatten;
    assert TreesOf(items, show)[1..] == TreesOf(items[1..], show);
  }

  lemma {:induction false} ItemsStream(
    items: seq<Value>, style: Style, indent: nat, tail: bytes, after: seq<Token>, comments: bool)
    requires ItemsPrintNumbers(items, style.show) && items != [] && Stops(tail)
    requires Stream(tail, comments) == [CLOSE_ARRAY] + after
    ensures Stream(ItemsText(items, style, indent) + tail, comments)
         == FlattenItems(TreesOf(items, style.show), false) + after
    decreases items, 1
  {
    hide Stream, Eol, Text, Flatten, ItemsText, FlattenItems, TreesOf, TreeOf;
    var next := AfterItem(items, style, indent, tail);
    ItemsTextSplit(items, style, indent, tail);
    TreesSplit(items, style.show);
    EolVanishes(style, indent, Text(items[0], style, indent) + next, comments);
    TextStream(items[0], style, indent, next, comments);
    if |items| > 1 {
      PunctStream(COMMA_TOKEN, ItemsText(items[1..], style, indent) + tail, comments);
      ItemsStream(items[1..], style, indent, tail, after, comments);
    }
  }

  function AfterMember(members: seq<Member>, style: Style, indent: nat, tail: bytes): bytes
    requires members != []
  {
    if |members| == 1 then tail else [Bytes.COMMA] + (MembersText(members[1..], style, indent) + tail)
  }

  lemma MembersTextSplit(members: seq<Member>, style: Style, indent: nat, tail: bytes)
    requires members != []
    ensures MembersText(members, style, indent) + tail
         == Eol(style, indent) + (KeyText(members[0].key, style)
              + (Text(members[0].val, style, indent) + AfterMember(members, style, indent, tail)))
  {
    hide Text, Eol, KeyText;
    var e, k, t := Eol(style, indent), KeyText(members[0].key, style), Text(members[0].val, style, indent);
    var comma: bytes := if |members| == 1 then [] else [Bytes.COMMA];
    var more := MembersText(members[1..], style, indent);
    assert MembersText(members, style, indent) == e + k + t + comma + more;
    Regroup(e, k, t, comma, more, tail);
    assert |members| == 1 ==> comma + (more + tail) == tail;
  }

  lemma Regroup(a: bytes, b: bytes, c: bytes, d: bytes, e: bytes, f: bytes)
    ensures a + b + c + d + e + f == a + (b + (c + (d + (e + f))))
  {
  }

  lemma FieldsSplit(members: seq<Member>, show: ShowDecimal)
    requires members != []
    ensures FlattenFields(FieldsOf(members, show), false)
         == [KeyToken(members[0].key), COLON_TOKEN] + Flatten(TreeOf(members[0].val, show))
            + if |members| == 1 then [CLOSE_OBJECT]
              else [COMMA_TOKEN] + FlattenFields(FieldsOf(members[1..], show), false)
  {
    hide Flatten;
    assert FieldsOf(members, show)[1..] == FieldsOf(members[1..], show);
  }

  lemma {:induction false} MembersStream(
    members: seq<Member>, style: Style, indent: nat, tail: bytes, after: seq<Token>, comments: bool)
    requires MembersPrintNumbers(members, style.show) && members != [] && Stops(tail)
    requires Stream(tail, comments) == [CLOSE_OBJECT] + after
    ensures Stream(MembersText(members, style, indent) + tail, comments)
         == FlattenFields(FieldsOf(members, style.show), false) + after
    decreases members, 1
  {
    hide Stream, Eol, Text, Flatten, KeyText, MembersText, FlattenFields, FieldsOf, TreeOf, KeyToken;
    assert members[0].val < members[0];
    var text := Text(members[0].val, style, indent);
    var next := AfterMember(members, style, indent, tail);
    MembersTextSplit(members, style, indent, tail);
    FieldsSplit(members, style.show);
    EolVanishes(style, indent, KeyText(members[0].key, style) + (text + next), comments);
    KeyStream(members[0].key, style, text + next, comments);
    TextStream(members[0].val, style, indent, next, comments);
    if |members| > 1 {
      PunctStream(COMMA_TOKEN, MembersText(members[1..], style, indent) + tail, comments);
      MembersStream(members[1..], style, indent, tail, after, comments);
    }
  }

  /** Pretty printing preserves meaning: its significant tokens are those of the compact text. */
  lemma PrettyHasCompactTokens(v: Value, show: ShowDecimal, indentSize: nat, indent: nat, comments: bool)
    requires PrintsNumbers(v, show)
    ensures Stream(Text(v, Pretty(show, indentSize), indent), comments) == Stream(CompactText(v, show), comments)
  {
    hide Stream, Text;
    var pretty, compact := Text(v, Pretty(show, indentSize), indent), Text(v, Compact(show), 0);
    TextStream(v, Pretty(show, indentSize), indent, [], comments);
    TextStream(v, Compact(show), 0, [], comments);
    assert pretty + [] == pretty && compact + [] == compact;
  }

  // ---- the meaning of an encoded tree ---------------------------------------------------------------------------

  /** Every string and every key is well-formed UTF-8 (section 4 of RFC 3629). */
  ghost predicate HasUtf8Strings(v: Value) {
    match v
    case Str(s) => IsWellFormed(s)
    case Arr(items) => forall i :: 0 <= i < |items| ==> HasUtf8Strings(items[i])
    case Obj(members) =>
      forall i :: 0 <= i < |members| ==> IsWellFormed(members[i].key) && HasUtf8Strings(members[i].val)
    case _ => true
  }

  lemma QuotedDecodes(s: bytes, rules: Rules)
    requires IsWellFormed(s) && rules.encoding != Cesu8
    ensures Decoded(KeyToken(s), rules) == Some(s)
  {
    WellFormedRoundTrip(rules.encoding, s);
    assert Inner(Quoted(s)) == Encode(s);
  }

  lemma IntegerIsNotDecimal(n: int64)
    ensures !IsDecimalLike(Show(n))
  {
    hide Integers.Digits, Magnitude;
    assert forall i :: 0 <= i < |Show(n)| ==> Show(n)[i] == MINUS || IsDigit(Show(n)[i]);
  }

  lemma IntegerHasNoLeadingZero(n: int64)
    ensures !HasLeadingZero(Show(n))
  {
    NoLeadingZero(Magnitude(n));
  }

  lemma IntegerMeans(n: int64)
    ensures NumberValue(Show(n)) == Int(n) && !HasLeadingZero(Show(n))
  {
    hide Show, Strtoul, ToSigned, HasLeadingZero, IsDecimalLike;
    ReadsBack(n);
    IntegerIsNotDecimal(n);
    IntegerHasNoLeadingZero(n);
  }

  lemma ScalarMeans(v: Value, rules: Rules, show: ShowDecimal)
    requires !IsContainer(v) && !v.Decimal? && HasUtf8Strings(v) && rules.encoding != Cesu8
    ensures IsScalarToken(TokenOf(v, show), rules) && ScalarMeaning(TokenOf(v, show), rules) == v
  {
    hide Decode, Show, NumberValue, Quoted, IsWellFormed, HasLeadingZero;
    match v
    case Int(n) => IntegerMeans(n);
    case Str(s) => QuotedDecodes(s, rules);
    case _ =>
  }

  /** The derivation is valid under every set of rules that keeps UTF-8, and it means the tree. */
  lemma {:induction false} TreeMeans(v: Value, rules: Rules, show: ShowDecimal)
    requires WellFormed(v) && DecimalFree(v) && HasUtf8Strings(v) && rules.encoding != Cesu8
    ensures IsValue(TreeOf(v, show), rules) && Meaning(TreeOf(v, show), rules) == v
    decreases v, 1
  {
    hide TreesOf, FieldsOf, ItemMeanings, FieldMeanings, Sorted;
    if v.Arr? {
      TreesMean(v.items, rules, show);
    } else if v.Obj? {
      FieldsMean(v.members, rules, show);
      assert [] + v.members == v.members;
      FieldsBuild([], v.members, rules, show);
    } else {
      ScalarMeans(v, rules, show);
    }
  }

  lemma {:induction false} TreesMean(items: seq<Value>, rules: Rules, show: ShowDecimal)
    requires forall i :: 0 <= i < |items| ==> WellFormed(items[i]) && DecimalFree(items[i]) && HasUtf8Strings(items[i])
    requires rules.encoding != Cesu8
    ensures forall i :: 0 <= i < |items| ==> IsValue(TreesOf(items, show)[i], rules)
    ensures ItemMeanings(TreesOf(items, show), rules) == items
    decreases items, 0
  {
    hide WellFormed, DecimalFree, HasUtf8Strings, IsValue, TreeOf, Meaning;
    if items != [] {
      TreeMeans(items[0], rules, show);
      TreesMean(items[1..], rules, show);
      assert TreesOf(items, show)[1..] == TreesOf(items[1..], show);
    }
  }

  lemma {:induction false} FieldsMean(members: seq<Member>, rules: Rules, show: ShowDecimal)
    requires Sorted(members) && rules.encoding != Cesu8
    requires forall i :: 0 <= i < |members| ==>
      && WellFormed(members[i].val) && DecimalFree(members[i].val)
      && IsWellFormed(members[i].key) && HasUtf8Strings(members[i].val)
    ensures var fs := FieldsOf(members, show);
      && (forall i :: 0 <= i < |fs| ==> IsKey(fs[i], rules) && Key(fs[i], rules) == members[i].key)
      && (forall i :: 0 <= i < |fs| ==> IsValue(fs[i].val, rules) && Meaning(fs[i].val, rules) == members[i].val)
      && DistinctKeys(fs, rules)
    decreases members, 0
  {
    hide Decode, IsWellFormed, HasUtf8Strings, WellFormed, DecimalFree, IsValue, Meaning, TreeOf, Quoted, Sorted;
    var fs := FieldsOf(members, show);
    forall i | 0 <= i < |fs|
      ensures IsKey(fs[i], rules) && Key(fs[i], rules) == members[i].key
      ensures IsValue(fs[i].val, rules) && Meaning(fs[i].val, rules) == members[i].val
    {
      assert members[i].val < members[i];
      QuotedDecodes(members[i].key, rules);
      TreeMeans(members[i].val, rules, show);
    }
    forall i, j | 0 <= i < j < |fs| ensures Key(fs[i], rules) != Key(fs[j], rules) {
      SortedPair(members, i, j);
      CompareBytesSign(members[i].key, members[j].key);
    }
  }

  /** The first field on its own: its key, its value, and the rest. */
  lemma FieldsStep(members: seq<Member>, rules: Rules, done: seq<Member>, show: ShowDecimal)
    requires ValuesDecimalFree(members) && members != []
    ensures |FieldsOf(members, show)| == |members| && FieldsOf(members, show)[1..] == FieldsOf(members[1..], show)
    ensures FieldMeanings(FieldsOf(members, show), rules, done)
         == var f := FieldsOf(members, show)[0];
            FieldMeanings(FieldsOf(members[1..], show), rules, Put(done, Key(f, rules), Meaning(f.val, rules)))
  {
    hide Key, Meaning, TreeOf, KeyToken, Put, DecimalFree;
  }

  lemma FirstGoesLast(done: seq<Member>, members: seq<Member>)
    requires Sorted(done + members) && members != []
    ensures Put(done, members[0].key, members[0].val) == done + [members[0]]
    ensures done + [members[0]] + members[1..] == done + members
  {
    hide Sorted, Put, CompareBytes;
    forall i | 0 <= i < |done| ensures CompareBytes(done[i].key, members[0].key) < 0 {
      SortedPair(done + members, i, |done|);
    }
    PutLast(done, members[0].key, members[0].val);
  }

  /** Inserting the members one after the other, in key order, rebuilds the list. */
  lemma {:induction false} FieldsBuild(done: seq<Member>, members: seq<Member>, rules: Rules, show: ShowDecimal)
    requires Sorted(done + members) && ValuesDecimalFree(members)
    requires forall i :: 0 <= i < |members| ==>
      && Key(FieldsOf(members, show)[i], rules) == members[i].key
      && Meaning(FieldsOf(members, show)[i].val, rules) == members[i].val
    ensures FieldMeanings(FieldsOf(members, show), rules, done) == done + members
    decreases members
  {
    hide Key, Meaning, TreeOf, KeyToken, Sorted, Put, DecimalFree, FieldsOf, FieldMeanings;
    if members == [] {
      NoFields(rules, done, show);
    } else {
      FieldsStep(members, rules, done, show);
      FirstGoesLast(done, members);
      var fs := FieldsOf(members, show);
      forall i | 0 <= i < |members| - 1
        ensures Key(FieldsOf(members[1..], show)[i], rules) == members[1..][i].key
        ensures Meaning(FieldsOf(members[1..], show)[i].val, rules) == members[1..][i].val
      {
        assert FieldsOf(members[1..], show)[i] == fs[i + 1];
      }
      FieldsBuild(done + [members[0]], members[1..], rules, show);
    }
  }

  lemma NoFields(rules: Rules, done: seq<Member>, show: ShowDecimal)
    ensures FieldMeanings(FieldsOf([], show), rules, done) == done + []
  {
  }

  /** The parser undoes both printers: whatever the options, as long as strings stay UTF-8, the text of a tree
      is parsed to that tree; only a depth limit or the demand for a document can stand in the way. */
  lemma ParserUndoesPrinter(v: Value, style: Style, opts: Options)
    requires WellFormed(v) && DecimalFree(v) && HasUtf8Strings(v)
    requires opts.failureMode != Ignore && opts.rules.encoding != Cesu8
    ensures Parse(Text(v, style, 0), opts) == Returned(v) <==>
      && (opts.rules.requireDocument ==> IsContainer(v))
      && (opts.rules.maxDepth > 0 ==> Depth(v) < opts.rules.maxDepth)
  {
    hide Parse, Stream, Text, IsValue, Meaning, Flatten, TreeOf, Depth, WellFormed, HasUtf8Strings;
    var text := Text(v, style, 0);
    DecimalFreePrints(v, style.show);
    TextStream(v, style, 0, [], opts.rules.comments);
    assert text + [] == text;
    TreeMeans(v, opts.rules, style.show);
    ParseIffGrammar(text, opts, v);
    if (opts.rules.requireDocument ==> IsContainer(v)) && (opts.rules.maxDepth > 0 ==> Depth(v) < opts.rules.maxDepth) {
      EmptyStream(opts.rules.comments);
      assert Derives(TreeOf(v, style.show), Stream([], opts.rules.comments), text, opts.rules, v);
    }
  }

  lemma EmptyStream(comments: bool)
    ensures Stream([], comments) == []
  {
  }

  /** With the default options: `parse(to_string(v)) == v`. */
  lemma ParseToString(v: Value, show: ShowDecimal)
    requires WellFormed(v) && DecimalFree(v) && HasUtf8Strings(v)
    ensures Parse(CompactText(v, show), DEFAULT_OPTIONS) == Returned(v)
  {
    hide Parse, Text;
    ParserUndoesPrinter(v, Compact(show), DEFAULT_OPTIONS);
  }
}
