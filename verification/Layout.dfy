/** What the encoders put between tokens: nothing in the compact text, and in the pretty text line ends, spaces for the
    depth, and the space after a colon. */
module Layout {
  import opened Bytes
  import opened Json
  import opened TokenPatterns
  import opened Tokenizing
  import opened Grammar
  import opened Encoders
  import opened RoundTrip

  predicate Opens(t: Token) { t.kind == ArrayBegin || t.kind == ObjectBegin }

  predicate Closes(t: Token) { t.kind == ArrayEnd || t.kind == ObjectEnd }

  /** A line end, and `n` spaces. */
  function Line(n: nat): bytes { Ascii("\n") + seq(n, _ => ' ' as int) }

  /** What stands between two tokens, where `depth` brackets are open after the first. */
  function Between(a: Token, b: Token, depth: nat, size: nat): bytes {
    if a.kind == KeyDelimiter then Ascii(" ")
    else if Opens(a) && Closes(b) then []
    else if Opens(a) || a.kind == Separator then Line(depth * size)
    else if Closes(b) && depth > 0 then Line((depth - 1) * size)
    else []
  }

  function DepthAfter(depth: nat, t: Token): nat {
    if Opens(t) then depth + 1 else if Closes(t) && depth > 0 then depth - 1 else depth
  }

  /** The tokens with what stands between them. */
  function Laid(ts: seq<Token>, depth: nat, size: nat): bytes {
    if ts == [] then []
    else
      var inner := DepthAfter(depth, ts[0]);
      ts[0].text + if |ts| == 1 then [] else Between(ts[0], ts[1], inner, size) + Laid(ts[1..], inner, size)
  }

  lemma {:induction false} LineIsNewline(n: nat)
    ensures Line(n) == Newline(n)
  {
    SpacesAre(n);
  }

  lemma {:induction false} SpacesAre(n: nat)
    ensures Spaces(n) == seq(n, _ => ' ' as int)
  {
    if n > 0 {
      SpacesAre(n - 1);
      assert seq(n, _ => ' ' as int) == [' ' as int] + seq(n - 1, _ => ' ' as int);
    }
  }

  lemma LaidStep(t: Token, ts: seq<Token>, depth: nat, size: nat)
    ensures Laid([t], depth, size) == t.text
    ensures ts != [] ==>
      var inner := DepthAfter(depth, t);
      Laid([t] + ts, depth, size) == t.text + (Between(t, ts[0], inner, size) + Laid(ts, inner, size))
  {
    hide Between;
    assert ([t] + ts)[1..] == ts;
  }

  /** The last token of a value, in a place with `depth` open brackets, and what follows the value. */
  predicate MayEndValue(more: seq<Token>) { more == [] || Closes(more[0]) || more[0].kind == Separator }

  function Ending(more: seq<Token>, depth: nat, size: nat): bytes {
    if more == [] then []
    else (if Closes(more[0]) && depth > 0 then Line((depth - 1) * size) else []) + Laid(more, depth, size)
  }

  lemma CloseEnds(close: Token, more: seq<Token>, depth: nat, size: nat)
    requires close in {CLOSE_ARRAY, CLOSE_OBJECT} && depth > 0 && MayEndValue(more)
    ensures Laid([close] + more, depth, size) == close.text + Ending(more, depth - 1, size)
    ensures Ending([close] + more, depth, size)
         == Line((depth - 1) * size) + (close.text + Ending(more, depth - 1, size))
  {
    hide Line, Laid;
    LaidStep(close, more, depth, size);
    assert [close] + [] == [close];
  }

  lemma Times(depth: nat, size: nat)
    ensures (depth + 1) * size == depth * size + size
  {
  }

  lemma ScalarIsLaid(v: Value, style: Style, depth: nat, more: seq<Token>)
    requires style.Pretty? && !IsContainer(v) && MayEndValue(more)
    ensures Laid([TokenOf(v, style.show)] + more, depth, style.indentSize)
         == ScalarText(v, style.show) + Ending(more, depth, style.indentSize)
  {
    hide Line, Laid, Quoted, Integers.Show;
    var t := TokenOf(v, style.show);
    assert t.text == ScalarText(v, style.show) && t.kind in {Boolean, Kind.Null, Number, String};
    LaidStep(t, more, depth, style.indentSize);
    assert [t] + [] == [t];
  }

  /** The pretty text of a tree is its tokens, laid out. */
  lemma {:induction false} TextIsLaid(v: Value, style: Style, depth: nat, more: seq<Token>)
    requires style.Pretty? && MayEndValue(more)
    ensures Laid(Flatten(TreeOf(v, style.show)) + more, depth, style.indentSize)
         == Text(v, style, depth * style.indentSize) + Ending(more, depth, style.indentSize)
    decreases v, 1
  {
    hide Laid, Ending, ItemsText, MembersText, TreesOf, FieldsOf, FlattenItems, FlattenFields, Line, Newline;
    if v.Arr? {
      ArrayIsLaid(v.items, style, depth, more);
    } else if v.Obj? {
      ObjectIsLaid(v.members, style, depth, more);
    } else {
      ScalarIsLaid(v, style, depth, more);
    }
  }

  lemma {:induction false} ArrayIsLaid(items: seq<Value>, style: Style, depth: nat, more: seq<Token>)
    requires style.Pretty? && MayEndValue(more)
    ensures Laid([OPEN_ARRAY] + FlattenItems(TreesOf(items, style.show), false) + more, depth, style.indentSize)
         == Text(Arr(items), style, depth * style.indentSize) + Ending(more, depth, style.indentSize)
    decreases items, 1
  {
    hide Laid, Ending, ItemsText, TreesOf, FlattenItems, Line, Newline;
    var size := style.indentSize;
    var list := FlattenItems(TreesOf(items, style.show), false);
    assert [OPEN_ARRAY] + list + more == [OPEN_ARRAY] + (list + more);
    LaidStep(OPEN_ARRAY, list + more, depth, size);
    Times(depth, size);
    LineIsNewline(depth * size);
    if items == [] {
      NoTrees(style.show);
      CloseEnds(CLOSE_ARRAY, more, depth + 1, size);
      assert Text(Arr([]), style, depth * size) == [LBRACKET] + [RBRACKET];
    } else {
      ItemsAreLaid(items, style, depth + 1, more);
    }
  }

  lemma {:induction false} ItemsAreLaid(items: seq<Value>, style: Style, depth: nat, more: seq<Token>)
    requires style.Pretty? && items != [] && depth > 0 && MayEndValue(more)
    ensures var (size, ts) := (style.indentSize, FlattenItems(TreesOf(items, style.show), false));
      && ts != [] && !Closes(ts[0])
      && Line(depth * size) + Laid(ts + more, depth, size)
         == ItemsText(items, style, depth * size)
            + (Line((depth - 1) * size) + ([RBRACKET] + Ending(more, depth - 1, size)))
    decreases items, 0
  {
    hide Laid, Ending, ItemsText, TreesOf, FlattenItems, Line, Newline, Text, TreeOf, Flatten;
    var size := style.indentSize;
    var end := Line((depth - 1) * size) + ([RBRACKET] + Ending(more, depth - 1, size));
    TreesSplit(items, style.show);
    ItemsTextSplit(items, style, depth * size, end);
    LineIsNewline(depth * size);
    var first := Flatten(TreeOf(items[0], style.show));
    FirstOpens(items[0], style.show);
    if |items| == 1 {
      assert first + [CLOSE_ARRAY] + more == first + ([CLOSE_ARRAY] + more);
      TextIsLaid(items[0], style, depth, [CLOSE_ARRAY] + more);
      CloseEnds(CLOSE_ARRAY, more, depth, size);
    } else {
      var tail := FlattenItems(TreesOf(items[1..], style.show), false);
      assert first + ([COMMA_TOKEN] + tail) + more == first + ([COMMA_TOKEN] + (tail + more));
      TextIsLaid(items[0], style, depth, [COMMA_TOKEN] + (tail + more));
      ItemsAreLaid(items[1..], style, depth, more);
      CommaIsLaid(tail + more, depth, size);
    }
  }

  lemma CommaIsLaid(ts: seq<Token>, depth: nat, size: nat)
    requires ts != []
    ensures Ending([COMMA_TOKEN] + ts, depth, size) == [Bytes.COMMA] + (Line(depth * size) + Laid(ts, depth, size))
  {
    hide Laid, Line;
    LaidStep(COMMA_TOKEN, ts, depth, size);
  }

  lemma FirstOpens(v: Value, show: ShowDecimal)
    ensures !Closes(Flatten(TreeOf(v, show))[0])
  {
    hide FlattenItems, FlattenFields, TreesOf, FieldsOf;
  }

  lemma {:induction false} ObjectIsLaid(members: seq<Member>, style: Style, depth: nat, more: seq<Token>)
    requires style.Pretty? && MayEndValue(more)
    ensures Laid([OPEN_OBJECT] + FlattenFields(FieldsOf(members, style.show), false) + more, depth, style.indentSize)
         == Text(Obj(members), style, depth * style.indentSize) + Ending(more, depth, style.indentSize)
    decreases members, 1
  {
    hide Laid, Ending, MembersText, FieldsOf, FlattenFields, Line, Newline;
    var size := style.indentSize;
    var list := FlattenFields(FieldsOf(members, style.show), false);
    assert [OPEN_OBJECT] + list + more == [OPEN_OBJECT] + (list + more);
    LaidStep(OPEN_OBJECT, list + more, depth, size);
    Times(depth, size);
    LineIsNewline(depth * size);
    if members == [] {
      NoTrees(style.show);
      CloseEnds(CLOSE_OBJECT, more, depth + 1, size);
      assert Text(Obj([]), style, depth * size) == [LBRACE] + [RBRACE];
    } else {
      MembersAreLaid(members, style, depth + 1, more);
    }
  }

  /** A key, its colon and the space after it. */
  lemma KeyIsLaid(key: bytes, style: Style, ts: seq<Token>, depth: nat)
    requires style.Pretty? && ts != []
    ensures Laid([KeyToken(key), COLON_TOKEN] + ts, depth, style.indentSize)
         == KeyText(key, style) + Laid(ts, depth, style.indentSize)
  {
    hide Laid, Line, Quoted;
    assert [KeyToken(key), COLON_TOKEN] + ts == [KeyToken(key)] + ([COLON_TOKEN] + ts);
    LaidStep(KeyToken(key), [COLON_TOKEN] + ts, depth, style.indentSize);
    LaidStep(COLON_TOKEN, ts, depth, style.indentSize);
  }

  lemma {:induction false} MembersAreLaid(members: seq<Member>, style: Style, depth: nat, more: seq<Token>)
    requires style.Pretty? && members != [] && depth > 0 && MayEndValue(more)
    ensures var (size, ts) := (style.indentSize, FlattenFields(FieldsOf(members, style.show), false));
      && ts != [] && !Closes(ts[0])
      && Line(depth * size) + Laid(ts + more, depth, size)
         == MembersText(members, style, depth * size)
            + (Line((depth - 1) * size) + ([RBRACE] + Ending(more, depth - 1, size)))
    decreases members, 0
  {
    hide Laid, Ending, MembersText, FieldsOf, FlattenFields, Line, Newline, Text, TreeOf, Flatten, KeyText, Quoted;
    var size := style.indentSize;
    assert members[0].val < members[0];
    var end := Line((depth - 1) * size) + ([RBRACE] + Ending(more, depth - 1, size));
    FieldsSplit(members, style.show);
    MembersTextSplit(members, style, depth * size, end);
    LineIsNewline(depth * size);
    var key := [KeyToken(members[0].key), COLON_TOKEN];
    var first := Flatten(TreeOf(members[0].val, style.show));
    if |members| == 1 {
      var after := [CLOSE_OBJECT] + more;
      assert key + first + [CLOSE_OBJECT] + more == key + (first + after);
      KeyIsLaid(members[0].key, style, first + after, depth);
      TextIsLaid(members[0].val, style, depth, after);
      CloseEnds(CLOSE_OBJECT, more, depth, size);
    } else {
      var tail := FlattenFields(FieldsOf(members[1..], style.show), false);
      var after := [COMMA_TOKEN] + (tail + more);
      assert key + first + ([COMMA_TOKEN] + tail) + more == key + (first + after);
      KeyIsLaid(members[0].key, style, first + after, depth);
      TextIsLaid(members[0].val, style, depth, after);
      MembersAreLaid(members[1..], style, depth, more);
      CommaIsLaid(tail + more, depth, size);
    }
  }

  // ---- the compact text -----------------------------------------------------------------------------------------

  lemma {:induction false} TextsConcat(a: seq<Token>, b: seq<Token>)
    ensures Texts(a + b) == Texts(a) + Texts(b)
  {
    if a == [] {
      assert a + b == b;
    } else {
      assert (a + b)[1..] == a[1..] + b;
      TextsConcat(a[1..], b);
    }
  }

  lemma OneText(t: Token)
    ensures Texts([t]) == t.text
  {
    assert Texts([t]) == t.text + Texts([t][1..]);
  }

  /** The compact text of a tree is its tokens put together. */
  lemma {:induction false} TextIsTokens(v: Value, style: Style, indent: nat)
    requires style.Compact?
    ensures Text(v, style, indent) == Texts(Flatten(TreeOf(v, style.show)))
    decreases v, 1
  {
    hide ItemsText, MembersText, TreesOf, FieldsOf, FlattenItems, FlattenFields, Texts, Quoted, Integers.Show;
    NoText(style, indent);
    if v.Arr? {
      ItemsAreTokens(v.items, style, indent);
      TextsConcat([OPEN_ARRAY], FlattenItems(TreesOf(v.items, style.show), false));
      OneText(OPEN_ARRAY);
    } else if v.Obj? {
      MembersAreTokens(v.members, style, indent);
      TextsConcat([OPEN_OBJECT], FlattenFields(FieldsOf(v.members, style.show), false));
      OneText(OPEN_OBJECT);
    } else {
      OneText(TokenOf(v, style.show));
    }
  }

  lemma {:induction false} ItemsAreTokens(items: seq<Value>, style: Style, indent: nat)
    requires style.Compact?
    ensures Texts(FlattenItems(TreesOf(items, style.show), false)) == ItemsText(items, style, indent) + [RBRACKET]
    decreases items, 0
  {
    hide ItemsText, TreesOf, FlattenItems, Text, TreeOf, Flatten, Texts;
    OneText(CLOSE_ARRAY);
    OneText(COMMA_TOKEN);
    if items == [] {
      NoTrees(style.show);
      assert ItemsText([], style, indent) == [] by { NoText(style, indent); }
    } else {
      TreesSplit(items, style.show);
      ItemsTextSplit(items, style, indent, [RBRACKET]);
      TextIsTokens(items[0], style, indent);
      var first, tail := Flatten(TreeOf(items[0], style.show)), FlattenItems(TreesOf(items[1..], style.show), false);
      TextsConcat([COMMA_TOKEN], tail);
      TextsConcat(first, if |items| == 1 then [CLOSE_ARRAY] else [COMMA_TOKEN] + tail);
      ItemsAreTokens(items[1..], style, indent);
    }
  }

  lemma NoText(style: Style, indent: nat)
    ensures ItemsText([], style, indent) == [] && MembersText([], style, indent) == []
  {
  }

  lemma {:induction false} MembersAreTokens(members: seq<Member>, style: Style, indent: nat)
    requires style.Compact?
    ensures Texts(FlattenFields(FieldsOf(members, style.show), false)) == MembersText(members, style, indent) + [RBRACE]
    decreases members, 0
  {
    hide MembersText, FieldsOf, FlattenFields, Text, TreeOf, Flatten, Texts, Quoted, KeyText;
    OneText(CLOSE_OBJECT);
    OneText(COMMA_TOKEN);
    if members == [] {
      NoTrees(style.show);
      assert MembersText([], style, indent) == [] by { NoText(style, indent); }
    } else {
      assert members[0].val < members[0];
      FieldsSplit(members, style.show);
      MembersTextSplit(members, style, indent, [RBRACE]);
      TextIsTokens(members[0].val, style, indent);
      var key := [KeyToken(members[0].key), COLON_TOKEN];
      var first := Flatten(TreeOf(members[0].val, style.show));
      var tail := FlattenFields(FieldsOf(members[1..], style.show), false);
      KeyIsTokens(members[0].key, style);
      TextsConcat(key, first);
      TextsConcat([COMMA_TOKEN], tail);
      TextsConcat(key + first, if |members| == 1 then [CLOSE_OBJECT] else [COMMA_TOKEN] + tail);
      MembersAreTokens(members[1..], style, indent);
    }
  }

  lemma KeyIsTokens(key: bytes, style: Style)
    requires style.Compact?
    ensures Texts([KeyToken(key), COLON_TOKEN]) == KeyText(key, style)
  {
    hide Quoted;
    assert [KeyToken(key), COLON_TOKEN] == [KeyToken(key)] + [COLON_TOKEN];
    TextsConcat([KeyToken(key)], [COLON_TOKEN]);
    OneText(KeyToken(key));
    OneText(COLON_TOKEN);
  }

  // ---- both, in terms of the tokens that the scanner finds ------------------------------------------------------

  /** `to_string(v)` is exactly its significant tokens: there is no whitespace in it. */
  lemma CompactIsTokens(v: Value, show: ShowDecimal, comments: bool)
    requires PrintsNumbers(v, show)
    ensures CompactText(v, show) == Texts(Stream(CompactText(v, show), comments))
  {
    hide Text, Stream, Texts, Flatten, TreeOf;
    TextIsTokens(v, Compact(show), 0);
    TextStream(v, Compact(show), 0, [], comments);
    EmptyStream(comments);
    assert CompactText(v, show) + [] == CompactText(v, show);
    assert Flatten(TreeOf(v, show)) + [] == Flatten(TreeOf(v, show));
  }

  /** The pretty text is the tokens of the compact text with line ends, indentation and the spaces after colons. */
  lemma PrettyIsLaid(v: Value, show: ShowDecimal, size: nat, comments: bool)
    requires PrintsNumbers(v, show)
    ensures Text(v, Pretty(show, size), 0) == Laid(Stream(CompactText(v, show), comments), 0, size)
  {
    hide Text, Stream, Laid, Flatten, TreeOf;
    TextIsLaid(v, Pretty(show, size), 0, []);
    TextStream(v, Compact(show), 0, [], comments);
    EmptyStream(comments);
    assert CompactText(v, show) + [] == CompactText(v, show);
    assert Flatten(TreeOf(v, show)) + [] == Flatten(TreeOf(v, show));
  }
}
