/** The parser accepts exactly the grammar. */
module GrammarTheorems {
  import opened Bytes
  import opened Json
  import opened Integers
  import opened StringCodec
  import opened TokenPatterns
  import opened NumberGrammar
  import opened Tokenizing
  import opened ParserSpec
  import opened Grammar

  /** What the scanner says about the kinds that have only one text, or none. */
  lemma LexedKinds(t: Token)
    requires IsLexed(t)
    ensures IsPlain(t, ArrayBegin) ==> t == OPEN_ARRAY
    ensures IsPlain(t, ArrayEnd) ==> t == CLOSE_ARRAY
    ensures IsPlain(t, ObjectBegin) ==> t == OPEN_OBJECT
    ensures IsPlain(t, ObjectEnd) ==> t == CLOSE_OBJECT
    ensures IsPlain(t, KeyDelimiter) ==> t == COLON_TOKEN
    ensures IsPlain(t, Separator) ==> t == COMMA_TOKEN
    ensures !IsPlain(t, Unknown)
    ensures IsPlain(t, Comment) ==> !AllNul(t.text)
  {
    hide FirstToken, MatchOf, AllNul;
    var s :| s != [] && FirstToken(s) == t;
    MatchedToken(s, MatchOf(s));
    if !t.error {
      MatchedBrackets(s);
      MatchedOthers(s);
    }
    if IsPlain(t, Comment) {
      assert t.text[0] == SLASH;
      NotAllNul(t.text);
    }
  }

  lemma NotAllNul(text: bytes)
    requires text != [] && text[0] != 0
    ensures !AllNul(text)
  {
  }

  lemma MatchedBrackets(s: bytes)
    requires s != [] && MatchOf(s).complete
    ensures MatchOf(s).kind == ArrayBegin ==> MatchOf(s).length == 1 && s[..1] == [LBRACKET]
    ensures MatchOf(s).kind == ArrayEnd ==> MatchOf(s).length == 1 && s[..1] == [RBRACKET]
    ensures MatchOf(s).kind == ObjectBegin ==> MatchOf(s).length == 1 && s[..1] == [LBRACE]
    ensures MatchOf(s).kind == ObjectEnd ==> MatchOf(s).length == 1 && s[..1] == [RBRACE]
  {
    hide StringBody, RunLength, RunState, CommentSpan, SpaceLength, CommonPrefix;
  }

  lemma MatchedOthers(s: bytes)
    requires s != [] && MatchOf(s).complete
    ensures MatchOf(s).kind == KeyDelimiter ==> MatchOf(s).length == 1 && s[..1] == [Bytes.COLON]
    ensures MatchOf(s).kind == Separator ==> MatchOf(s).length == 1 && s[..1] == [Bytes.COMMA]
    ensures MatchOf(s).kind != Unknown
    ensures MatchOf(s).kind == Comment ==> s[0] == SLASH
  {
    hide StringBody, RunLength, RunState, CommentSpan, SpaceLength, CommonPrefix;
  }

  predicate StartsWithComment(ts: seq<Token>) { ts != [] && IsPlain(ts[0], Comment) }

  /** `next` hands out the stream token by token, and reports exactly a comment that is not permitted. */
  lemma {:induction false} AdvanceStream(c: Context, rules: Rules)
    ensures var s, ts := Advance(c, rules), Stream(c.rest, rules.comments);
      && (s.c.log == c.log <==> !StartsWithComment(ts))
      && (s.c.log == c.log ==>
            && (s.ok <==> ts != [])
            && (s.ok ==> && s.c.current == Some(ts[0]) && IsLexed(ts[0]) && IsSignificant(ts[0])
                         && Stream(s.c.rest, rules.comments) == ts[1..]))
    decreases |c.rest|
  {
    hide FirstToken, Move, Stream;
    var m := Move(c);
    MoveKeeps(c);
    StreamUnfold(c.rest, rules.comments);
    if m.rest != [] {
      var d := Take(m);
      var t := FirstToken(m.rest);
      if IsPlain(t, Whitespace) || (IsPlain(t, Comment) && rules.comments) {
        AdvanceStream(d, rules);
        assert Stream(c.rest, rules.comments) == [] + Stream(d.rest, rules.comments);
      } else if IsPlain(t, Comment) {
        var e := Report(d, CommentNotAllowed);
        assert e.log <= Advance(e, rules).c.log;
      } else {
        assert Stream(c.rest, rules.comments)[1..] == Stream(d.rest, rules.comments);
      }
    }
  }

  lemma StreamUnfold(s: bytes, comments: bool)
    ensures s == [] ==> Stream(s, comments) == []
    ensures s != [] ==> var t := FirstToken(s);
      Stream(s, comments) == (if IsSkipped(t, comments) then [] else [t]) + Stream(s[|t.text|..], comments)
  {
    hide FirstToken;
  }

  lemma MoveKeeps(c: Context)
    ensures Move(c).rest == c.rest && Move(c).log == c.log
  {
  }

  lemma SameLog(c: Context, d: Context, e: Context)
    requires Extends(c, d) && Extends(d, e) && e.log == c.log
    ensures d.log == c.log
  {
  }

  // ---- soundness: a run without problems has a derivation -------------------------------------------------------

  ghost predicate AtToken(c: Context) {
    c.current.Some? && IsLexed(c.current.value) && IsSignificant(c.current.value)
  }

  /** `s` is a clean step of the stream that starts at `c`. */
  lemma CleanAdvance(c: Context, rules: Rules, end: Context)
    requires Extends(Advance(c, rules).c, end) && end.log == c.log
    ensures var s := Advance(c, rules);
      && s.c.log == c.log
      && (s.ok ==> AtToken(s.c)
                   && Stream(c.rest, rules.comments) == [s.c.current.value] + Stream(s.c.rest, rules.comments))
      && (!s.ok ==> Stream(c.rest, rules.comments) == [])
  {
    hide Advance, Stream;
    AdvanceStream(c, rules);
  }

  lemma ReportIsSeen(c: Context, reason: Reason, end: Context)
    requires Extends(Report(c, reason), end)
    ensures |end.log| > |c.log|
  {
  }

  lemma SoundScalar(c: Context, rules: Rules) returns (t: Tree)
    requires AtToken(c) && ParseAt(c, rules).c.log == c.log
    requires Current(c).kind in {Boolean, Kind.Null, Number, String} && !Current(c).error
    ensures var r := ParseAt(c, rules);
      r.ok && IsValue(t, rules) && Meaning(t, rules) == r.val && r.c.rest == c.rest && Flatten(t) == [Current(c)]
  {
    hide Decode, NumberValue, IsLexed;
    t := Leaf(Current(c));
  }

  lemma {:induction false} SoundValue(c: Context, rules: Rules) returns (t: Tree)
    requires AtToken(c) && ParseAt(c, rules).c.log == c.log
    ensures var r := ParseAt(c, rules);
      && r.ok && IsValue(t, rules) && Meaning(t, rules) == r.val
      && [Current(c)] + Stream(c.rest, rules.comments) == Flatten(t) + Stream(r.c.rest, rules.comments)
    decreases |c.rest|, 1
  {
    hide ArrayLoop, ObjectLoop, ForwardToSeparator, IsLexed, ParseBoolean, ParseNumber, ParseString, CheckToken;
    hide Stream, Flatten, Meaning, IsValue;
    LexedKinds(Current(c));
    if Is(c, ArrayBegin) {
      t := SoundArray(c, rules);
    } else if Is(c, ObjectBegin) {
      t := SoundObject(c, rules);
    } else if Current(c).kind in {Boolean, Kind.Null, Number, String} && !Current(c).error {
      t := SoundScalar(c, rules);
    } else {
      ReportIsSeen(c, InvalidToken, ParseAt(c, rules).c);
      assert false;
    }
  }

  lemma {:induction false} SoundArray(c: Context, rules: Rules) returns (t: Tree)
    requires Current(c) == OPEN_ARRAY && ArrayLoop(c, rules, [], false).c.log == c.log
    ensures var r := ArrayLoop(c, rules, [], false);
      && r.ok && IsValue(t, rules) && Meaning(t, rules) == r.val
      && [Current(c)] + Stream(c.rest, rules.comments) == Flatten(t) + Stream(r.c.rest, rules.comments)
    decreases |c.rest|, 0, 1
  {
    hide ArrayLoop, Stream, FlattenItems, ItemMeanings;
    var items, trailing := SoundItems(c, rules, [], false);
    t := ArrayTree(items, trailing);
    assert [] + ItemMeanings(items, rules) == ItemMeanings(items, rules);
  }

  lemma {:induction false} SoundObject(c: Context, rules: Rules) returns (t: Tree)
    requires Current(c) == OPEN_OBJECT && ObjectLoop(c, rules, [], false).c.log == c.log
    ensures var r := ObjectLoop(c, rules, [], false);
      && r.ok && IsValue(t, rules) && Meaning(t, rules) == r.val
      && [Current(c)] + Stream(c.rest, rules.comments) == Flatten(t) + Stream(r.c.rest, rules.comments)
    decreases |c.rest|, 0, 1
  {
    hide ObjectLoop, Stream, FlattenFields, FieldMeanings, IsKey, DistinctKeys, Find;
    var fields, trailing := SoundFields(c, rules, [], false);
    t := ObjectTree(fields, trailing);
  }

  lemma {:induction false} SoundFields(c: Context, rules: Rules, members: seq<Member>, trailing: bool)
    returns (fs: seq<Field>, comma: bool)
    requires ObjectLoop(c, rules, members, trailing).c.log == c.log
    ensures var r := ObjectLoop(c, rules, members, trailing);
      && r.ok && r.val == Obj(FieldMeanings(fs, rules, members))
      && Stream(c.rest, rules.comments) == FlattenFields(fs, comma) + Stream(r.c.rest, rules.comments)
    ensures forall i :: 0 <= i < |fs| ==> IsKey(fs[i], rules) && IsValue(fs[i].val, rules)
    ensures DistinctKeys(fs, rules) && forall i :: 0 <= i < |fs| ==> Find(members, Key(fs[i], rules)).None?
    ensures (fs == [] ==> !comma && (trailing ==> rules.allowTrailing)) && (comma ==> rules.allowTrailing)
    decreases |c.rest|, 0, 0
  {
    hide Advance, Stream, Extends, IsLexed, ObjectField, Decode;
    LoopExtends(c, rules, members, trailing);
    var r := ObjectLoop(c, rules, members, trailing);
    var s := Advance(c, rules);
    CleanAdvance(c, rules, r.c);
    if !s.ok {
      ReportIsSeen(s.c, EndInsideObject, r.c);
      assert false;
    }
    LexedKinds(Current(s.c));
    if Is(s.c, ObjectEnd) {
      fs, comma := [], false;
    } else {
      var k := ParseKey(s.c, rules);
      SameLog(s.c, k.c, r.c);
      assert Is(s.c, String) && Decoded(Current(s.c), rules) == Some(k.text) && k.c == s.c;
      fs, comma := SoundField(s.c, rules, members, Current(s.c), k.text);
    }
  }

  /** One field, and the fields after it. */
  lemma {:induction false} SoundField(c: Context, rules: Rules, members: seq<Member>, token: Token, key: bytes)
    returns (fs: seq<Field>, comma: bool)
    requires ObjectField(c, rules, members, key, false).c.log == c.log
    requires IsPlain(token, String) && Decoded(token, rules) == Some(key)
    ensures var r := ObjectField(c, rules, members, key, false);
      && r.ok && r.val == Obj(FieldMeanings(fs, rules, members))
      && [token] + Stream(c.rest, rules.comments) == FlattenFields(fs, comma) + Stream(r.c.rest, rules.comments)
    ensures forall i :: 0 <= i < |fs| ==> IsKey(fs[i], rules) && IsValue(fs[i].val, rules)
    ensures DistinctKeys(fs, rules) && forall i :: 0 <= i < |fs| ==> Find(members, Key(fs[i], rules)).None?
    ensures fs != [] && (comma ==> rules.allowTrailing)
    decreases |c.rest|, 2, 0
  {
    hide Advance, Stream, Extends, IsLexed, Decode, ObjectLoop, FieldValue, Find, Put;
    hide FlattenFields, FieldMeanings, IsValue, Meaning, Flatten;
    FieldExtends(c, rules, members, key);
    var r := ObjectField(c, rules, members, key, false);
    var v := FieldValue(c, rules);
    SameLog(c, v.c, r.c);
    var t := SoundFieldValue(c, rules);
    var f := Field(token, t);
    if Find(members, key).Some? {
      ReportIsSeen(v.c, DuplicateKey, r.c);
      assert false;
    }
    var n := Advance(v.c, rules);
    CleanAdvance(v.c, rules, r.c);
    if !n.ok {
      ReportIsSeen(n.c, EndInsideObject, r.c);
      assert false;
    }
    LexedKinds(Current(n.c));
    if Is(n.c, ObjectEnd) {
      fs, comma := [f], false;
      OneField(f, rules, members);
    } else if Is(n.c, Separator) {
      var more, last := SoundFields(n.c, rules, Put(members, key, v.val), true);
      fs, comma := [f] + more, more == [] || last;
      JoinFields(f, more, comma, last, rules, members);
    } else {
      ReportIsSeen(n.c, InvalidObjectToken, r.c);
      assert false;
    }
  }

  lemma {:induction false} SoundFieldValue(c: Context, rules: Rules) returns (t: Tree)
    requires FieldValue(c, rules).c.log == c.log
    ensures var v := FieldValue(c, rules);
      && v.ok && IsValue(t, rules) && Meaning(t, rules) == v.val
      && Stream(c.rest, rules.comments) == [COLON_TOKEN] + Flatten(t) + Stream(v.c.rest, rules.comments)
    decreases |c.rest|, 1, 0
  {
    hide Advance, Stream, Extends, IsLexed, ParseAt, IsValue, Meaning, Flatten;
    ValueExtends(c, rules);
    var v := FieldValue(c, rules);
    var s := Advance(c, rules);
    CleanAdvance(c, rules, v.c);
    if !s.ok {
      ReportIsSeen(s.c, MissingDelimiter, v.c);
      assert false;
    }
    LexedKinds(Current(s.c));
    if !Is(s.c, KeyDelimiter) {
      ReportIsSeen(s.c, InvalidDelimiter, v.c);
      assert false;
    }
    var n := Advance(s.c, rules);
    CleanAdvance(s.c, rules, v.c);
    SameLog(s.c, ParseGeneric(s.c, rules).c, v.c);
    if !n.ok || !ParseAt(n.c, rules).ok {
      ReportIsSeen(ParseGeneric(s.c, rules).c, IncompleteValue, v.c);
      assert false;
    }
    t := SoundValue(n.c, rules);
  }

  lemma OneField(f: Field, rules: Rules, members: seq<Member>)
    ensures FlattenFields([f], false) == [f.key, COLON_TOKEN] + Flatten(f.val) + [CLOSE_OBJECT]
    ensures FieldMeanings([f], rules, members) == Put(members, Key(f, rules), Meaning(f.val, rules))
  {
    assert [f][1..] == [];
  }

  lemma JoinFields(f: Field, more: seq<Field>, comma: bool, last: bool, rules: Rules, members: seq<Member>)
    requires comma == (more == [] || last) && (more == [] ==> !last)
    requires DistinctKeys(more, rules)
    requires forall i :: 0 <= i < |more| ==>
      Find(Put(members, Key(f, rules), Meaning(f.val, rules)), Key(more[i], rules)).None?
    ensures FlattenFields([f] + more, comma)
         == [f.key, COLON_TOKEN] + Flatten(f.val) + ([COMMA_TOKEN] + FlattenFields(more, last))
    ensures FieldMeanings([f] + more, rules, members)
         == FieldMeanings(more, rules, Put(members, Key(f, rules), Meaning(f.val, rules)))
    ensures DistinctKeys([f] + more, rules)
    ensures forall i :: 0 <= i < |more| ==> Find(members, Key(more[i], rules)).None?
  {
    hide Decode, Find, Put;
    assert ([f] + more)[1..] == more;
    forall i | 0 <= i < |more|
      ensures Key(more[i], rules) != Key(f, rules) && Find(members, Key(more[i], rules)).None?
    {
      FindPut(members, Key(f, rules), Meaning(f.val, rules), Key(more[i], rules));
    }
  }

  lemma LoopExtends(c: Context, rules: Rules, members: seq<Member>, trailing: bool)
    ensures var end := ObjectLoop(c, rules, members, trailing).c;
      var s := Advance(c, rules);
      && Extends(c, s.c) && Extends(s.c, end)
      && (!s.ok ==> Extends(Report(s.c, EndInsideObject), end))
      && (s.ok && !Is(s.c, ObjectEnd) ==>
            var k := ParseKey(s.c, rules);
            |s.c.rest| < |c.rest| && k.c.rest == s.c.rest && Extends(s.c, k.c) && Extends(k.c, end))
  {
    hide Extends, Advance, ObjectField; ExtendsAll();
  }

  lemma FieldExtends(c: Context, rules: Rules, members: seq<Member>, key: bytes)
    ensures var end := ObjectField(c, rules, members, key, false).c;
      var v := FieldValue(c, rules);
      && Extends(c, v.c) && Extends(v.c, end)
      && (v.ok && Find(members, key).Some? ==> Extends(Report(v.c, DuplicateKey), end))
      && (v.ok && Find(members, key).None? ==>
            var n := Advance(v.c, rules);
            && |n.c.rest| < |c.rest| && Extends(n.c, end)
            && (!n.ok ==> Extends(Report(n.c, EndInsideObject), end))
            && (n.ok && !Is(n.c, ObjectEnd) && !Is(n.c, Separator) ==> Extends(Report(n.c, InvalidObjectToken), end)))
  {
    hide Extends, Advance, FieldValue, ObjectLoop, Find, Put; ExtendsAll();
  }

  lemma ValueExtends(c: Context, rules: Rules)
    ensures var end := FieldValue(c, rules).c;
      var s := Advance(c, rules);
      && Extends(c, s.c) && Extends(s.c, end)
      && (!s.ok ==> Extends(Report(s.c, MissingDelimiter), end))
      && (s.ok && !Is(s.c, KeyDelimiter) ==> Extends(Report(s.c, InvalidDelimiter), end))
      && (s.ok && Is(s.c, KeyDelimiter) ==>
            var v := ParseGeneric(s.c, rules);
            var n := Advance(s.c, rules);
            && |n.c.rest| < |c.rest| && Extends(n.c, end) && Extends(n.c, v.c) && Extends(v.c, end) && Extends(s.c, v.c)
            && (n.ok ==> v == ParseAt(n.c, rules))
            && (!v.ok ==> Extends(Report(v.c, IncompleteValue), end)))
  {
    hide Extends, Advance, ParseAt; ExtendsAll();
  }

  lemma {:induction false} SoundItems(c: Context, rules: Rules, items: seq<Value>, trailing: bool)
    returns (ts: seq<Tree>, comma: bool)
    requires ArrayLoop(c, rules, items, trailing).c.log == c.log
    ensures var r := ArrayLoop(c, rules, items, trailing);
      && r.ok && r.val == Arr(items + ItemMeanings(ts, rules))
      && Stream(c.rest, rules.comments) == FlattenItems(ts, comma) + Stream(r.c.rest, rules.comments)
    ensures forall i :: 0 <= i < |ts| ==> IsValue(ts[i], rules)
    ensures (ts == [] ==> !comma && (trailing ==> rules.allowTrailing)) && (comma ==> rules.allowTrailing)
    decreases |c.rest|, 0, 0
  {
    hide Advance, Stream, ParseAt, Extends, IsLexed, IsValue, Meaning, Flatten, ItemMeanings, FlattenItems;
    NoItems(rules);
    ArrayExtends(c, rules, items, trailing);
    var r := ArrayLoop(c, rules, items, trailing);
    var s := Advance(c, rules);
    CleanAdvance(c, rules, r.c);
    if !s.ok {
      ReportIsSeen(s.c, UnmatchedArray, r.c);
      assert false;
    }
    LexedKinds(Current(s.c));
    if Is(s.c, ArrayEnd) {
      ts, comma := [], false;
      assert items + [] == items;
    } else {
      var v := ParseAt(s.c, rules);
      SameLog(s.c, v.c, r.c);
      var t := SoundValue(s.c, rules);
      var n := Advance(v.c, rules);
      CleanAdvance(v.c, rules, r.c);
      if !n.ok {
        ReportIsSeen(n.c, UnmatchedArray, r.c);
        assert false;
      }
      LexedKinds(Current(n.c));
      if Is(n.c, ArrayEnd) {
        ts, comma := [t], false;
        OneItem(t, rules);
      } else if Is(n.c, Separator) {
        var more, last := SoundItems(n.c, rules, items + [v.val], true);
        ts, comma := [t] + more, more == [] || last;
        SoundItemsJoin(t, more, comma, last, rules, items);
      } else {
        ReportIsSeen(n.c, InvalidArrayEntry, r.c);
        assert false;
      }
    }
  }

  lemma NoItems(rules: Rules)
    ensures FlattenItems([], false) == [CLOSE_ARRAY] && ItemMeanings([], rules) == []
  {
  }

  lemma OneItem(t: Tree, rules: Rules)
    ensures ItemMeanings([t], rules) == [Meaning(t, rules)]
    ensures FlattenItems([t], false) == Flatten(t) + [CLOSE_ARRAY]
  {
    assert ItemMeanings([t], rules) == [Meaning(t, rules)] + ItemMeanings([], rules);
  }

  lemma SoundItemsJoin(t: Tree, more: seq<Tree>, comma: bool, last: bool, rules: Rules, items: seq<Value>)
    requires comma == (more == [] || last) && (more == [] ==> !last)
    ensures FlattenItems([t] + more, comma) == Flatten(t) + ([COMMA_TOKEN] + FlattenItems(more, last))
    ensures items + ItemMeanings([t] + more, rules) == items + [Meaning(t, rules)] + ItemMeanings(more, rules)
  {
    assert ([t] + more)[1..] == more;
  }

  lemma ArrayExtends(c: Context, rules: Rules, items: seq<Value>, trailing: bool)
    ensures var end := ArrayLoop(c, rules, items, trailing).c;
      var s := Advance(c, rules);
      && Extends(c, s.c) && Extends(s.c, end)
      && (!s.ok ==> Extends(Report(s.c, UnmatchedArray), end))
      && (s.ok && !Is(s.c, ArrayEnd) ==>
            var v := ParseAt(s.c, rules);
            var n := Advance(v.c, rules);
            && |s.c.rest| < |c.rest| && Extends(s.c, v.c) && Extends(v.c, end) && Extends(n.c, end)
            && (!n.ok ==> Extends(Report(n.c, UnmatchedArray), end))
            && (n.ok ==> |n.c.rest| < |c.rest|)
            && (n.ok && !Is(n.c, ArrayEnd) && !Is(n.c, Separator) ==> Extends(Report(n.c, InvalidArrayEntry), end)))
  {
    hide Extends, Advance, ParseAt; ExtendsAll();
  }

  // ---- completeness: a derivation is parsed without problems ----------------------------------------------------

  /** The next token of the stream is read cleanly. */
  lemma TakeToken(c: Context, rules: Rules, t: Token, ts: seq<Token>)
    requires Stream(c.rest, rules.comments) == [t] + ts && !IsPlain(t, Comment)
    ensures var s := Advance(c, rules);
      s.ok && s.c.log == c.log && s.c.current == Some(t) && Stream(s.c.rest, rules.comments) == ts
  {
    hide Advance, Stream;
    AdvanceStream(c, rules);
  }

  /** The context after `r` is clean and in front of `rest`. */
  ghost predicate Parses(c: Context, rules: Rules, r: Parsed, v: Value, rest: seq<Token>) {
    r.ok && r.val == v && r.c.log == c.log && Stream(r.c.rest, rules.comments) == rest
  }

  lemma {:induction false} CompleteValue(t: Tree, rest: seq<Token>, c: Context, rules: Rules)
    requires IsValue(t, rules)
    requires c.current == Some(Flatten(t)[0]) && Stream(c.rest, rules.comments) == Flatten(t)[1..] + rest
    ensures Parses(c, rules, ParseAt(c, rules), Meaning(t, rules), rest)
    decreases t, 1
  {
    hide ArrayLoop, ObjectLoop, Decode, NumberValue, Stream, FlattenItems, FlattenFields, FieldMeanings, ItemMeanings;
    match t {
      case Leaf(token) =>
        assert [] + rest == rest;
      case ArrayTree(items, comma) =>
        CompleteItems(items, comma, rest, c, rules, [], false);
        assert [] + ItemMeanings(items, rules) == ItemMeanings(items, rules);
      case ObjectTree(fields, comma) =>
        CompleteFields(fields, comma, rest, c, rules, [], false);
    }
  }

  lemma ValueToken(t: Tree, rules: Rules)
    requires IsValue(t, rules)
    ensures var first := Flatten(t)[0]; IsSignificant(first) && !IsPlain(first, ArrayEnd)
  {
  }

  lemma SplitItems(items: seq<Tree>, comma: bool, rest: seq<Token>, rules: Rules)
    requires items != []
    ensures var first := Flatten(items[0]);
      var after := if |items| == 1 && !comma then [CLOSE_ARRAY] else [COMMA_TOKEN] + FlattenItems(items[1..], comma);
      FlattenItems(items, comma) + rest == [first[0]] + (first[1..] + (after + rest))
    ensures ItemMeanings(items, rules) == [Meaning(items[0], rules)] + ItemMeanings(items[1..], rules)
  {
    hide Flatten, Meaning;
  }

  lemma ItemsAtEnd(items: seq<Tree>, rules: Rules)
    ensures |items| == 1 ==> ItemMeanings(items[1..], rules) == []
  {
  }

  lemma {:induction false} CompleteItems(
    items: seq<Tree>, comma: bool, rest: seq<Token>, c: Context, rules: Rules, done: seq<Value>, trailing: bool)
    requires forall i :: 0 <= i < |items| ==> IsValue(items[i], rules)
    requires (items == [] && trailing ==> rules.allowTrailing) && (comma ==> items != [] && rules.allowTrailing)
    requires Stream(c.rest, rules.comments) == FlattenItems(items, comma) + rest
    ensures Parses(c, rules, ArrayLoop(c, rules, done, trailing), Arr(done + ItemMeanings(items, rules)), rest)
    decreases items, 0
  {
    hide Advance, Stream, ParseAt, IsValue, Flatten, Meaning;
    if items == [] {
      TakeToken(c, rules, CLOSE_ARRAY, rest);
      assert done + [] == done;
    } else {
      SplitItems(items, comma, rest, rules);
      hide FlattenItems, ItemMeanings, ArrayLoop;
      var after := if |items| == 1 && !comma then [CLOSE_ARRAY] else [COMMA_TOKEN] + FlattenItems(items[1..], comma);
      CompleteItem(items[0], after + rest, c, rules);
      var v := ParseAt(Advance(c, rules).c, rules);
      if |items| == 1 && !comma {
        TakeToken(v.c, rules, CLOSE_ARRAY, rest);
        ItemsAtEnd(items, rules);
        LastItem(c, rules, done, trailing);
      } else {
        var tail := FlattenItems(items[1..], comma);
        assert after + rest == [COMMA_TOKEN] + (tail + rest);
        TakeToken(v.c, rules, COMMA_TOKEN, tail + rest);
        RestOfItems(items, comma);
        MoreItems(c, rules, done, trailing);
        CompleteItems(items[1..], comma && |items| > 1, rest, Advance(v.c, rules).c, rules, done + [v.val], true);
        assert done + [v.val] + ItemMeanings(items[1..], rules) == done + ([v.val] + ItemMeanings(items[1..], rules));
      }
    }
  }

  lemma {:induction false} CompleteItem(t: Tree, ts: seq<Token>, c: Context, rules: Rules)
    requires IsValue(t, rules)
    requires Stream(c.rest, rules.comments) == [Flatten(t)[0]] + (Flatten(t)[1..] + ts)
    ensures var s := Advance(c, rules);
      && s.ok && !Is(s.c, ArrayEnd) && s.c.log == c.log
      && Parses(s.c, rules, ParseAt(s.c, rules), Meaning(t, rules), ts)
    decreases t, 2
  {
    hide Advance, Stream, ParseAt, IsValue, Flatten, Meaning;
    ValueToken(t, rules);
    TakeToken(c, rules, Flatten(t)[0], Flatten(t)[1..] + ts);
    CompleteValue(t, ts, Advance(c, rules).c, rules);
  }

  /** The last item of an array: what the loop does when a closing bracket follows. */
  lemma LastItem(c: Context, rules: Rules, done: seq<Value>, trailing: bool)
    requires var s := Advance(c, rules);
      && s.ok && !Is(s.c, ArrayEnd) && ParseAt(s.c, rules).ok
      && var n := Advance(ParseAt(s.c, rules).c, rules); n.ok && n.c.current == Some(CLOSE_ARRAY)
    ensures var v := ParseAt(Advance(c, rules).c, rules);
      ArrayLoop(c, rules, done, trailing) == Parsed(true, Arr(done + [v.val]), Advance(v.c, rules).c)
  {
    hide Advance, ParseAt;
  }

  lemma MoreItems(c: Context, rules: Rules, done: seq<Value>, trailing: bool)
    requires var s := Advance(c, rules);
      && s.ok && !Is(s.c, ArrayEnd) && ParseAt(s.c, rules).ok
      && var n := Advance(ParseAt(s.c, rules).c, rules); n.ok && n.c.current == Some(COMMA_TOKEN)
    ensures var v := ParseAt(Advance(c, rules).c, rules);
      ArrayLoop(c, rules, done, trailing) == ArrayLoop(Advance(v.c, rules).c, rules, done + [v.val], true)
  {
    hide Advance, ParseAt;
  }

  /** A comma after the last item is used up with it. */
  lemma RestOfItems(items: seq<Tree>, comma: bool)
    requires items != []
    ensures FlattenItems(items[1..], comma && |items| > 1) == FlattenItems(items[1..], comma)
  {
  }

  lemma RestOfFields(fields: seq<Field>, comma: bool)
    requires fields != []
    ensures FlattenFields(fields[1..], comma && |fields| > 1) == FlattenFields(fields[1..], comma)
  {
  }

  lemma SplitFields(fields: seq<Field>, comma: bool, rest: seq<Token>, rules: Rules, done: seq<Member>)
    requires fields != []
    ensures var f := fields[0];
      var after := if |fields| == 1 && !comma then [CLOSE_OBJECT]
                   else [COMMA_TOKEN] + FlattenFields(fields[1..], comma);
      FlattenFields(fields, comma) + rest == [f.key] + ([COLON_TOKEN] + Flatten(f.val) + (after + rest))
    ensures FieldMeanings(fields, rules, done)
         == FieldMeanings(fields[1..], rules, Put(done, Key(fields[0], rules), Meaning(fields[0].val, rules)))
  {
    hide Flatten, Put, Decode, Meaning;
  }

  lemma {:induction false} CompleteFields(
    fields: seq<Field>, comma: bool, rest: seq<Token>, c: Context, rules: Rules, done: seq<Member>, trailing: bool)
    requires forall i :: 0 <= i < |fields| ==> IsKey(fields[i], rules) && IsValue(fields[i].val, rules)
    requires DistinctKeys(fields, rules) && forall i :: 0 <= i < |fields| ==> Find(done, Key(fields[i], rules)).None?
    requires (fields == [] && trailing ==> rules.allowTrailing) && (comma ==> fields != [] && rules.allowTrailing)
    requires Stream(c.rest, rules.comments) == FlattenFields(fields, comma) + rest
    ensures Parses(c, rules, ObjectLoop(c, rules, done, trailing), Obj(FieldMeanings(fields, rules, done)), rest)
    decreases fields, 0
  {
    hide Advance, Stream, IsValue, Flatten, Meaning, ObjectField, Decode, Put, Find, FieldValue, ParseKey, IsKey;
    hide FlattenFields, FieldMeanings, ObjectLoop, Key, DistinctKeys;
    if fields == [] {
      CloseObject(c, rules, done, trailing, rest);
    } else {
      var f := fields[0];
      SplitFields(fields, comma, rest, rules, done);
      var after := if |fields| == 1 && !comma then [CLOSE_OBJECT]
                   else [COMMA_TOKEN] + FlattenFields(fields[1..], comma);
      CompleteKeyAndValue(f, after + rest, c, rules, done, trailing);
      var s := Advance(c, rules).c;
      var v := FieldValue(s, rules);
      if |fields| == 1 && !comma {
        TakeToken(v.c, rules, CLOSE_OBJECT, rest);
        LastField(s, rules, f, done);
        OneField(f, rules, done);
        assert fields == [f];
      } else {
        var tail := FlattenFields(fields[1..], comma);
        assert after + rest == [COMMA_TOKEN] + (tail + rest);
        TakeToken(v.c, rules, COMMA_TOKEN, tail + rest);
        RestOfFields(fields, comma);
        KeysStayAbsent(fields, rules, done, v.val);
        CompleteFields(fields[1..], comma && |fields| > 1, rest, Advance(v.c, rules).c, rules,
                       Put(done, Key(f, rules), v.val), true);
        MoreFields(s, rules, f, done);
      }
    }
  }

  lemma CloseObject(c: Context, rules: Rules, done: seq<Member>, trailing: bool, rest: seq<Token>)
    requires (trailing ==> rules.allowTrailing) && Stream(c.rest, rules.comments) == FlattenFields([], false) + rest
    ensures Parses(c, rules, ObjectLoop(c, rules, done, trailing), Obj(FieldMeanings([], rules, done)), rest)
  {
    hide Advance, Stream, ObjectField, ParseKey;
    TakeToken(c, rules, CLOSE_OBJECT, rest);
  }

  lemma KeysStayAbsent(fields: seq<Field>, rules: Rules, done: seq<Member>, val: Value)
    requires fields != [] && DistinctKeys(fields, rules)
    requires forall i :: 0 <= i < |fields| ==> Find(done, Key(fields[i], rules)).None?
    ensures DistinctKeys(fields[1..], rules)
    ensures forall i :: 0 <= i < |fields[1..]| ==>
      Find(Put(done, Key(fields[0], rules), val), Key(fields[1..][i], rules)).None?
  {
    hide Key, Put, Find;
    forall i | 0 <= i < |fields[1..]|
      ensures Find(Put(done, Key(fields[0], rules), val), Key(fields[1..][i], rules)).None?
    {
      assert fields[1..][i] == fields[i + 1];
      FindPut(done, Key(fields[0], rules), val, Key(fields[i + 1], rules));
    }
  }

  lemma {:induction false} CompleteKeyAndValue(
    f: Field, ts: seq<Token>, c: Context, rules: Rules, done: seq<Member>, trailing: bool)
    requires IsKey(f, rules) && IsValue(f.val, rules)
    requires Stream(c.rest, rules.comments) == [f.key] + ([COLON_TOKEN] + Flatten(f.val) + ts)
    ensures var s := Advance(c, rules);
      && s.c.log == c.log
      && Parses(s.c, rules, FieldValue(s.c, rules), Meaning(f.val, rules), ts)
      && ObjectLoop(c, rules, done, trailing) == ObjectField(s.c, rules, done, Key(f, rules), false)
    decreases f, 0
  {
    hide Advance, Stream, IsValue, Flatten, Meaning, ObjectField, FieldValue, Decode;
    assert f.val < f;
    TakeToken(c, rules, f.key, [COLON_TOKEN] + Flatten(f.val) + ts);
    CompleteFieldValue(f.val, ts, Advance(c, rules).c, rules);
  }

  lemma {:induction false} CompleteFieldValue(t: Tree, rest: seq<Token>, c: Context, rules: Rules)
    requires IsValue(t, rules)
    requires Stream(c.rest, rules.comments) == [COLON_TOKEN] + Flatten(t) + rest
    ensures Parses(c, rules, FieldValue(c, rules), Meaning(t, rules), rest)
    decreases t, 2
  {
    hide Advance, Stream, ParseAt, IsValue, Flatten, Meaning;
    var first := Flatten(t);
    ValueToken(t, rules);
    assert [COLON_TOKEN] + first + rest == [COLON_TOKEN] + ([first[0]] + (first[1..] + rest));
    TakeToken(c, rules, COLON_TOKEN, [first[0]] + (first[1..] + rest));
    var s := Advance(c, rules).c;
    TakeToken(s, rules, first[0], first[1..] + rest);
    CompleteValue(t, rest, Advance(s, rules).c, rules);
  }

  /** The last field of an object: what `ObjectField` does when a closing brace follows. */
  lemma LastField(c: Context, rules: Rules, f: Field, members: seq<Member>)
    requires var v := FieldValue(c, rules);
      && v.ok && Find(members, Key(f, rules)).None?
      && Advance(v.c, rules).ok && Advance(v.c, rules).c.current == Some(CLOSE_OBJECT)
    ensures var v := FieldValue(c, rules);
      ObjectField(c, rules, members, Key(f, rules), false)
      == Parsed(true, Obj(Put(members, Key(f, rules), v.val)), Advance(v.c, rules).c)
  {
    hide Advance, FieldValue, Find, Put, Key;
  }

  lemma MoreFields(c: Context, rules: Rules, f: Field, members: seq<Member>)
    requires var v := FieldValue(c, rules);
      && v.ok && Find(members, Key(f, rules)).None?
      && Advance(v.c, rules).ok && Advance(v.c, rules).c.current == Some(COMMA_TOKEN)
    ensures var v := FieldValue(c, rules);
      ObjectField(c, rules, members, Key(f, rules), false)
      == ObjectLoop(Advance(v.c, rules).c, rules, Put(members, Key(f, rules), v.val), true)
  {
    hide Advance, FieldValue, Find, Put, Key, ObjectLoop;
  }

  // ---- the whole parse ------------------------------------------------------------------------------------------

  lemma {:induction false} DrainClean(c: Context, rules: Rules)
    ensures Drain(c, rules).log == c.log <==> OnlyNuls(Stream(c.rest, rules.comments))
    decreases |c.rest|
  {
    hide Advance, Stream, Extends, IsLexed, AllNul;
    ExtendsAll();
    var ts := Stream(c.rest, rules.comments);
    var s := Advance(c, rules);
    var end := Drain(c, rules);
    AdvanceStream(c, rules);
    DrainExtends(c, rules);
    if s.c.log != c.log {
      AdvanceLexed(c, rules);
      LexedKinds(ts[0]);
      if end.log == c.log { SameLog(c, s.c, end); }
    } else if s.ok {
      LexedKinds(ts[0]);
      if AllNul(ts[0].text) {
        DrainClean(s.c, rules);
        assert OnlyNuls(ts) <==> OnlyNuls(ts[1..]) by {
          assert forall i :: 1 <= i < |ts| ==> ts[i] == ts[1..][i - 1];
        }
      } else {
        ReportIsSeen(s.c, DataAfterEnd, end);
      }
    }
  }

  lemma DrainExtends(c: Context, rules: Rules)
    ensures var s := Advance(c, rules);
      && Extends(c, s.c) && Extends(s.c, Drain(c, rules)) && (s.ok ==> |s.c.rest| < |c.rest|)
      && (s.ok && IsSignificant(Current(s.c)) && !Is(s.c, Unknown) && !AllNul(Current(s.c).text) ==>
            Extends(Report(s.c, DataAfterEnd), Drain(c, rules)))
  {
    hide Extends, Advance; ExtendsAll();
  }

  /** Every token of the stream comes from the scanner. */
  lemma {:induction false} StreamLexed(s: bytes, comments: bool, i: nat)
    requires i < |Stream(s, comments)|
    ensures IsLexed(Stream(s, comments)[i])
    decreases |s|
  {
    hide FirstToken;
    var t := FirstToken(s);
    if IsSkipped(t, comments) {
      StreamLexed(s[|t.text|..], comments, i);
    } else if i > 0 {
      StreamLexed(s[|t.text|..], comments, i - 1);
    }
  }

  lemma AdvanceLexed(c: Context, rules: Rules)
    requires Stream(c.rest, rules.comments) != []
    ensures IsLexed(Stream(c.rest, rules.comments)[0])
  {
    StreamLexed(c.rest, rules.comments, 0);
  }

  /** The depth checker stays silent exactly while the nesting stays below the limit. */
  lemma {:induction false} DepthClean(c: Context, rules: Rules, v: Value, depth: nat)
    requires depth < rules.maxDepth
    ensures CheckDepth(c, rules, v, depth).log == c.log <==> depth + Depth(v) < rules.maxDepth
    decreases v, 1
  {
    if IsContainer(v) {
      var d := if depth + 1 == rules.maxDepth then Report(c, TooDeep) else c;
      if depth + 1 == rules.maxDepth {
        ReportIsSeen(c, TooDeep, CheckDepth(c, rules, v, depth));
      } else if v.Arr? {
        ItemsClean(c, rules, v.items, depth + 1);
      } else {
        MembersClean(c, rules, v.members, depth + 1);
      }
    }
  }

  lemma {:induction false} ItemsClean(c: Context, rules: Rules, items: seq<Value>, depth: nat)
    requires depth < rules.maxDepth
    ensures CheckItems(c, rules, items, depth).log == c.log <==> depth + ItemsDepth(items) < rules.maxDepth
    decreases items, 0
  {
    if items != [] {
      var d := CheckDepth(c, rules, items[0], depth);
      DepthClean(c, rules, items[0], depth);
      ItemsClean(d, rules, items[1..], depth);
      if CheckItems(c, rules, items, depth).log == c.log {
        SameLog(c, d, CheckItems(c, rules, items, depth));
      }
    }
  }

  lemma {:induction false} MembersClean(c: Context, rules: Rules, members: seq<Member>, depth: nat)
    requires depth < rules.maxDepth
    ensures CheckMembers(c, rules, members, depth).log == c.log <==> depth + MembersDepth(members) < rules.maxDepth
    decreases members, 0
  {
    if members != [] {
      assert members[0].val < members[0];
      var d := CheckDepth(c, rules, members[0].val, depth);
      DepthClean(c, rules, members[0].val, depth);
      MembersClean(d, rules, members[1..], depth);
      if CheckMembers(c, rules, members, depth).log == c.log {
        SameLog(c, d, CheckMembers(c, rules, members, depth));
      }
    }
  }

  /** The checks after the value pass exactly when the text behind it, the root and the depth are right. */
  lemma FinishClean(c: Context, rules: Rules, v: Value)
    requires c.log == []
    ensures PostParse(c, rules, v).log == [] <==>
      && (rules.completeParse ==> OnlyNuls(Stream(c.rest, rules.comments)))
      && (rules.requireDocument ==> IsContainer(v))
      && (rules.maxDepth > 0 ==> Depth(v) < rules.maxDepth)
  {
    hide Stream, Drain, CheckDepth, Depth, OnlyNuls;
    DrainClean(c, rules);
    var d := if rules.completeParse then Drain(c, rules) else c;
    var e := if d.log == [] && rules.requireDocument && !IsContainer(v) then Report(d, NotADocument) else d;
    if rules.maxDepth > 0 {
      DepthClean(e, rules, v, 0);
      if e.log != [] {
        assert Extends(e, CheckDepth(e, rules, v, 0));
      }
    }
  }

  /** Soundness: what is returned without a problem has a derivation that means it. */
  lemma ParsedIsDerived(text: bytes, rules: Rules)
    requires ParseAll(StartOf(text), rules).ok
    ensures InGrammar(text, rules, ParseAll(StartOf(text), rules).val)
  {
    hide Stream, PostParse, ParseAt, Advance, Extends, IsLexed, IsValue, Meaning, Flatten, Depth;
    ExtendsAll();
    var c := StartOf(text);
    var end := ParseAll(c, rules).c;
    WholeExtends(c, rules);
    var v := ParseGeneric(c, rules);
    var s := Advance(c, rules);
    CleanAdvance(c, rules, end);
    if !s.ok {
      ReportIsSeen(s.c, NoInput, end);
      assert false;
    }
    SameLog(s.c, v.c, end);
    var t := SoundValue(s.c, rules);
    FinishClean(v.c, rules, v.val);
    assert Derives(t, Stream(v.c.rest, rules.comments), text, rules, v.val);
  }

  lemma WholeExtends(c: Context, rules: Rules)
    ensures var v, s := ParseGeneric(c, rules), Advance(c, rules);
      && Extends(c, s.c) && Extends(s.c, v.c) && Extends(v.c, ParseAll(c, rules).c)
      && (!v.ok ==> Extends(Report(v.c, NoInput), ParseAll(c, rules).c))
  {
    hide Extends, PostParse, ParseAt, Advance; ExtendsAll();
  }

  /** Completeness: a derivation is parsed without a problem, to the value it means. */
  lemma DerivedIsParsed(t: Tree, rest: seq<Token>, text: bytes, rules: Rules, v: Value)
    requires Derives(t, rest, text, rules, v)
    ensures ParseAll(StartOf(text), rules).ok && ParseAll(StartOf(text), rules).val == v
  {
    hide Stream, PostParse, ParseAt, Advance, Extends, IsLexed, IsValue, Meaning, Flatten, Depth;
    var c := StartOf(text);
    var first := Flatten(t);
    ValueToken(t, rules);
    assert first + rest == [first[0]] + (first[1..] + rest);
    TakeToken(c, rules, first[0], first[1..] + rest);
    var s := Advance(c, rules).c;
    CompleteValue(t, rest, s, rules);
    FinishClean(ParseAt(s, rules).c, rules, v);
  }

  /** `parse` returns `v` exactly when the grammar gives the text the meaning `v`. */
  lemma ParseIffGrammar(text: bytes, opts: Options, v: Value)
    requires opts.failureMode != Ignore
    ensures Parse(text, opts) == Returned(v) <==> InGrammar(text, opts.rules, v)
  {
    hide ParseAll, Derives;
    if Parse(text, opts) == Returned(v) {
      NoProblemIsOk(text, opts.rules);
      ParsedIsDerived(text, opts.rules);
    }
    if InGrammar(text, opts.rules, v) {
      var t, rest :| Derives(t, rest, text, opts.rules, v);
      DerivedIsParsed(t, rest, text, opts.rules, v);
      NoProblemIsOk(text, opts.rules);
    }
  }

  lemma NoProblemIsOk(text: bytes, rules: Rules)
    ensures ParseAll(StartOf(text), rules).ok <==> ParseAll(StartOf(text), rules).c.log == []
  {
  }

  /** A text has at most one meaning. */
  lemma GrammarIsUnambiguous(text: bytes, rules: Rules, v: Value, w: Value)
    requires InGrammar(text, rules, v) && InGrammar(text, rules, w)
    ensures v == w
  {
    var t, rest :| Derives(t, rest, text, rules, v);
    DerivedIsParsed(t, rest, text, rules, v);
    var t', rest' :| Derives(t', rest', text, rules, w);
    DerivedIsParsed(t', rest', text, rules, w);
  }

  /** Values that start the same text end at the same token. */
  lemma ValuesEndTogether(t: Tree, rest: seq<Token>, u: Tree, after: seq<Token>, text: bytes, rules: Rules)
    requires IsValue(t, rules) && Stream(text, rules.comments) == Flatten(t) + rest
    requires IsValue(u, rules) && Stream(text, rules.comments) == Flatten(u) + after
    ensures rest == after && Flatten(t) == Flatten(u)
  {
    hide Stream, ParseAt, Advance, Extends, IsLexed, IsValue, Meaning, Flatten;
    var c := StartOf(text);
    var first := Flatten(t)[0];
    assert first == (Flatten(t) + rest)[0] == (Flatten(u) + after)[0] == Flatten(u)[0];
    ValueToken(t, rules);
    assert Flatten(t) + rest == [first] + (Flatten(t)[1..] + rest);
    assert Flatten(u) + after == [first] + (Flatten(u)[1..] + after);
    TakeToken(c, rules, first, Flatten(t)[1..] + rest);
    TakeToken(c, rules, first, Flatten(u)[1..] + after);
    CompleteValue(t, rest, Advance(c, rules).c, rules);
    CompleteValue(u, after, Advance(c, rules).c, rules);
    var all := Flatten(t) + rest;
    assert Flatten(t) == all[..|all| - |rest|] && Flatten(u) == all[..|all| - |after|];
  }

  lemma RunsThrough(s: bytes, a: NumberState, b: NumberState, c: NumberState)
    requires |s| == 3 && Delta(Start, s[0]) == Some(a) && Delta(a, s[1]) == Some(b) && Delta(b, s[2]) == Some(c)
    ensures RunLength(s, Start) == 3 && RunState(s, Start) == c
  {
    assert s[1..][1..][1..] == [];
    assert RunLength(s[1..][1..], b) == 1 && RunState(s[1..][1..], b) == c;
    assert RunLength(s[1..], a) == 2 && RunState(s[1..], a) == c;
  }

  /** The two families of numbers that the strict check gets wrong: 0.5 or 0e1, and -01. */
  predicate IsMisjudged(s: bytes) {
    || (|s| >= 2 && s[0] == ZERO && (s[1] == DOT || IsMark(s[1])))
    || (|s| >= 3 && s[0] == MINUS && s[1] == ZERO && IsDigit(s[2]))
  }

  /** What follows the first digit of a number. */
  lemma AfterFirstDigit(f: NumberForm)
    requires IsForm(f) && !f.minus && |FormText(f)| >= 2
    ensures var s := FormText(f); IsDigit(s[0]) && (IsDigit(s[1]) || s[1] == DOT || IsMark(s[1]))
  {
  }

  lemma StrictJudgement(s: bytes)
    requires IsNumber(s)
    ensures (!HasLeadingZero(s) <==> IsRfcNumber(s)) <==> !IsMisjudged(s)
  {
    hide FormText, IsRfcNumber;
    RfcIffNotPadded(s);
    var f :| IsForm(f) && FormText(f) == s;
    StartsWithMinus(f);
    if !f.minus && |s| >= 2 {
      AfterFirstDigit(f);
    }
  }

  lemma StartsWithMinus(f: NumberForm)
    requires IsForm(f)
    ensures FormText(f) != [] && (FormText(f)[0] == MINUS <==> f.minus)
  {
  }

  lemma LexedNumber(t: Token)
    requires IsLexed(t) && IsPlain(t, Number)
    ensures IsNumber(t.text)
  {
    hide StringBody, CommentSpan, SpaceLength, CommonPrefix, RunLength, RunState, IsNumber;
    var s :| s != [] && FirstToken(s) == t;
    LongestViablePrefix(s);
  }

  /** Strict numbers are not those of section 6 of RFC 8259: the check agrees with it on exactly the number tokens
      outside these two families. */
  lemma StrictNumbers(t: Token, rules: Rules)
    requires IsLexed(t) && IsPlain(t, Number) && rules.strictNumbers
    ensures (IsScalarToken(t, rules) <==> IsRfcNumber(t.text)) <==> !IsMisjudged(t.text)
  {
    hide IsRfcNumber, IsNumber, IsMisjudged, HasLeadingZero;
    LexedNumber(t);
    StrictJudgement(t.text);
  }

  /** For example, 0.5 is refused, and -01 is taken for -1. */
  lemma StrictExamples()
    ensures var t := FirstToken([ZERO, DOT, 0x35]);
      t == Token([ZERO, DOT, 0x35], Number, false) && !IsScalarToken(t, STRICT_OPTIONS.rules)
    ensures var t := FirstToken([MINUS, ZERO, 0x31]);
      && t == Token([MINUS, ZERO, 0x31], Number, false)
      && IsScalarToken(t, STRICT_OPTIONS.rules) && ScalarMeaning(t, STRICT_OPTIONS.rules) == Int(-1)
  {
    hide RunLength, RunState;
    RunsThrough([ZERO, DOT, 0x35], Whole, AfterPoint, Fraction);
    RunsThrough([MINUS, ZERO, 0x31], AfterMinus, Whole, Whole);
    var digits: bytes := [ZERO, 0x31];
    assert [MINUS, ZERO, 0x31][1..] == digits;
    assert digits[..1] == [ZERO] && [ZERO][..0] == [];
    assert Natural([ZERO]) == 0 && Natural(digits) == 1;
  }
}
