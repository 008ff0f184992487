/** Where the problems of a parse are: line, column and character as closed forms over the text. */
module Positions {
  import opened Bytes
  import opened Json
  import opened TokenPatterns
  import opened StringCodec
  import opened Tokenizing
  import opened ParserSpec
  import opened Grammar

  /** The number of line feeds and carriage returns. */
  function Breaks(text: bytes): nat {
    if text == [] then 0
    else Breaks(text[..|text| - 1]) + if text[|text| - 1] in {LF, CR} then 1 else 0
  }

  /** The number of bytes after the last of them. */
  function SinceBreak(text: bytes): nat {
    if text == [] || text[|text| - 1] in {LF, CR} then 0 else 1 + SinceBreak(text[..|text| - 1])
  }

  lemma {:induction false} MoveOver(before: bytes, text: bytes)
    ensures LineAfter(1 + Breaks(before), text) == 1 + Breaks(before + text)
    ensures ColumnAfter(1 + SinceBreak(before), text) == 1 + SinceBreak(before + text)
    decreases |text|
  {
    if text == [] {
      assert before + text == before;
    } else {
      var more := before + [text[0]];
      assert more[..|more| - 1] == before;
      assert before + text == more + text[1..];
      MoveOver(more, text[1..]);
    }
  }

  /** Which token a problem is about; None is the end of the input. */
  predicate IsAbout(reason: Reason, token: Option<Token>, rules: Rules) {
    match reason
    case UnmatchedArray => token.None?
    case EndInsideObject => token.None?
    case MissingDelimiter => token.None?
    case IncompleteValue => token.None?
    case NoInput => token.None?
    case NotADocument => true
    case TooDeep => true
    case _ => token.Some? && IsAboutToken(reason, token.value, rules)
  }

  predicate IsAboutToken(reason: Reason, t: Token, rules: Rules) {
    match reason
    case CommentNotAllowed => IsPlain(t, Comment) && !rules.comments
    case LeadingZero => IsPlain(t, Number) && rules.strictNumbers && HasLeadingZero(t.text)
    case BadString => IsPlain(t, String) && Decode(rules.encoding, Inner(t.text), 0).None?
    case TrailingCommaInArray => IsPlain(t, ArrayEnd) && !rules.allowTrailing
    case InvalidArrayEntry => !IsPlain(t, ArrayEnd) && !IsPlain(t, Separator)
    case TrailingCommaInObject => IsPlain(t, ObjectEnd) && !rules.allowTrailing
    case ExpectingKey => !IsPlain(t, String) && !IsPlain(t, ObjectEnd)
    case InvalidDelimiter => !IsPlain(t, KeyDelimiter)
    case InvalidObjectToken => !IsPlain(t, ObjectEnd) && !IsPlain(t, Separator)
    case InvalidToken => !StartsValue(t)
    case DataAfterEnd => !AllNul(t.text)
    case DuplicateKey => true
    case _ => false
  }

  /** A problem is at a token of the text, or at its end, that its reason is about. Its column and character are those
      of that place, and so is its line, except that at the end the line keeps counting calls of `next`. */
  ghost predicate IsLocated(p: Problem, text: bytes, rules: Rules) {
    exists k :: 0 <= k <= |Lex(text)| && IsLocatedAt(p, text, rules, k)
  }

  ghost predicate IsLocatedAt(p: Problem, text: bytes, rules: Rules, k: nat)
    requires k <= |Lex(text)|
  {
    var before := Texts(Lex(text)[..k]);
    && p.character == |before|
    && p.column == 1 + SinceBreak(before)
    && p.line >= 1 + Breaks(before)
    && (k < |Lex(text)| ==> p.line == 1 + Breaks(before))
    && IsAbout(p.reason, if k < |Lex(text)| then Some(Lex(text)[k]) else None, rules)
  }

  /** The tokens of `text` split where `passed` ends and `tail` starts. */
  ghost predicate Splits(text: bytes, passed: bytes, tail: bytes) {
    exists k :: 0 <= k <= |Lex(text)| && Texts(Lex(text)[..k]) == passed && Lex(text)[k..] == Lex(tail)
  }

  ghost predicate Located(c: Context, text: bytes, rules: Rules) {
    && (forall p :: p in c.log ==> IsLocated(p, text, rules))
    && (c.line == 0 ==> c == StartOf(text))
    && (c.line > 0 && !c.complete ==>
          && c.current.Some? && c.current.value.text != []
          && FirstToken(c.current.value.text + c.rest) == c.current.value
          && Splits(text, c.passed, c.current.value.text + c.rest)
          && c.character == |c.passed|
          && c.line == 1 + Breaks(c.passed) && c.column == 1 + SinceBreak(c.passed))
    && (c.line > 0 && c.complete ==>
          && c.rest == [] && c.character == |text|
          && c.line >= 1 + Breaks(text) && c.column == 1 + SinceBreak(text))
  }

  ghost predicate Running(c: Context, text: bytes, rules: Rules) { Located(c, text, rules) && c.line > 0 }

  /** Running, and at the end exactly if there was nothing more to take. */
  ghost predicate Stepped(ok: bool, c: Context, text: bytes, rules: Rules) {
    Running(c, text, rules) && (ok <==> !c.complete)
  }

  function TokenAt(c: Context): Option<Token> { if c.complete then None else c.current }

  lemma PlaceOfToken(c: Context, text: bytes, rules: Rules) returns (k: nat)
    requires Running(c, text, rules)
    ensures k <= |Lex(text)|
    ensures c.complete ==> k == |Lex(text)| && Texts(Lex(text)[..k]) == text
    ensures !c.complete ==> k < |Lex(text)| && Texts(Lex(text)[..k]) == c.passed && Some(Lex(text)[k]) == c.current
  {
    hide Texts, FirstToken, IsLocated;
    if c.complete {
      k := |Lex(text)|;
      assert Lex(text)[..k] == Lex(text);
      LexTiles(text);
    } else {
      var tail := c.current.value.text + c.rest;
      k :| 0 <= k <= |Lex(text)| && Texts(Lex(text)[..k]) == c.passed && Lex(text)[k..] == Lex(tail);
      assert Lex(tail)[0] == FirstToken(tail);
      assert Lex(text)[k] == Lex(text)[k..][0];
    }
  }

  lemma ReportLocated(c: Context, reason: Reason, text: bytes, rules: Rules)
    requires Running(c, text, rules) && IsAbout(reason, TokenAt(c), rules)
    ensures Running(Report(c, reason), text, rules)
  {
    hide Splits, IsAbout, FirstToken, Lex, Texts, Breaks, SinceBreak;
    var p := Problem(c.line, c.column, c.character, reason);
    var k := PlaceOfToken(c, text, rules);
    assert IsLocatedAt(p, text, rules, k);
    forall q | q in Report(c, reason).log ensures IsLocated(q, text, rules) {
      assert q in c.log || q == p;
    }
  }

  lemma ReportsLocated(text: bytes, rules: Rules)
    ensures forall c, reason {:trigger Report(c, reason)} ::
      Running(c, text, rules) && IsAbout(reason, TokenAt(c), rules) ==> Running(Report(c, reason), text, rules)
    ensures forall c, reason {:trigger Report(c, reason)} :: KeepsPlace(c, Report(c, reason))
  {
    hide Running, IsAbout;
    forall c, reason | Running(c, text, rules) && IsAbout(reason, TokenAt(c), rules)
      ensures Running(Report(c, reason), text, rules)
    {
      ReportLocated(c, reason, text, rules);
    }
  }

  predicate KeepsPlace(c: Context, d: Context) {
    d.rest == c.rest && d.current == c.current && d.complete == c.complete
  }

  /** Nothing is passed at the start. */
  lemma SplitStart(text: bytes)
    ensures Splits(text, [], text)
  {
    hide Lex;
    assert Lex(text)[..0] == [] && Lex(text)[0..] == Lex(text);
  }

  /** From one token to the next. */
  lemma SplitNext(text: bytes, passed: bytes, tail: bytes, t: Token)
    requires Splits(text, passed, tail) && tail != [] && FirstToken(tail) == t
    ensures Splits(text, passed + t.text, tail[|t.text|..])
  {
    hide FirstToken, Texts, Lex;
    var ts := Lex(text);
    var k :| 0 <= k <= |ts| && Texts(ts[..k]) == passed && ts[k..] == Lex(tail);
    LexStep(tail);
    var rest := Lex(tail[|t.text|..]);
    SplitSeq(ts, k, t, rest);
    TextsAppend(ts[..k], t);
  }

  lemma SplitSeq(ts: seq<Token>, k: nat, t: Token, rest: seq<Token>)
    requires k <= |ts| && ts[k..] == [t] + rest
    ensures k < |ts| && ts[..k + 1] == ts[..k] + [t] && ts[k + 1..] == rest
  {
    assert ts[k] == ts[k..][0];
    assert ts[k + 1..] == ts[k..][1..];
  }

  lemma SplitEnd(text: bytes, passed: bytes)
    requires Splits(text, passed, [])
    ensures passed == text
  {
    hide Texts;
    var k :| 0 <= k <= |Lex(text)| && Texts(Lex(text)[..k]) == passed && Lex(text)[k..] == Lex([]);
    assert Lex(text)[..k] == Lex(text);
    LexTiles(text);
  }

  /** The position part of `next`: everything up to the rest has been passed. */
  lemma MoveLocated(c: Context, text: bytes, rules: Rules)
    requires Located(c, text, rules) && !c.complete
    ensures var m := Move(c);
      && m.log == c.log && m.rest == c.rest && !m.complete
      && Splits(text, m.passed, m.rest) && m.character == |m.passed| && m.line > 0
      && m.line == 1 + Breaks(m.passed) && m.column == 1 + SinceBreak(m.passed)
  {
    hide FirstToken, LineAfter, ColumnAfter, Breaks, SinceBreak, IsLocated, Splits;
    StartCounts();
    if c.line == 0 {
      SplitStart(text);
    } else {
      var t := c.current.value;
      MoveOver(c.passed, t.text);
      SplitNext(text, c.passed, t.text + c.rest, t);
      assert (t.text + c.rest)[|t.text|..] == c.rest;
    }
  }

  lemma {:induction false} AdvanceLocated(c: Context, rules: Rules, text: bytes)
    requires Located(c, text, rules)
    ensures Stepped(Advance(c, rules).ok, Advance(c, rules).c, text, rules)
    decreases |c.rest|
  {
    hide FirstToken, LineAfter, ColumnAfter, Breaks, SinceBreak, IsLocated, Splits, Texts, Lex;
    if !c.complete {
      var m := Move(c);
      MoveLocated(c, text, rules);
      if m.rest == [] {
        SplitEnd(text, m.passed);
      } else {
        var d := Take(m);
        LexStep(m.rest);
        assert Running(d, text, rules);
        if Is(d, Whitespace) {
          AdvanceLocated(d, rules, text);
        } else if Is(d, Comment) {
          if rules.comments {
            AdvanceLocated(d, rules, text);
          } else {
            ReportLocated(d, CommentNotAllowed, text, rules);
            AdvanceLocated(Report(d, CommentNotAllowed), rules, text);
          }
        }
      }
    }
  }

  lemma StartCounts()
    ensures Breaks([]) == 0 && SinceBreak([]) == 0
  {
  }

  lemma {:induction false} ForwardLocated(c: Context, rules: Rules, text: bytes)
    requires Running(c, text, rules)
    ensures Stepped(ForwardToSeparator(c, rules).ok, ForwardToSeparator(c, rules).c, text, rules)
    decreases |c.rest|
  {
    hide Advance, Located;
    AdvanceLocated(c, rules, text);
    var s := Advance(c, rules);
    if s.ok && !StopsForwarding(s.c) {
      ForwardLocated(s.c, rules, text);
    }
  }

  lemma LexedNull(t: Token)
    requires IsLexed(t) && t.kind == Kind.Null && !t.error
    ensures t.text == NULL_TEXT
  {
    hide StringBody, CommentSpan, SpaceLength, RunLength, RunState;
    var s :| s != [] && FirstToken(s) == t;
    CommonPrefixSpec(s, NULL_TEXT);
  }

  /** `check_token` never fails: a literal that is cut short is an error token. */
  lemma LiteralsMatch(c: Context, text: bytes, rules: Rules)
    requires Running(c, text, rules) && !c.complete
    ensures Is(c, Boolean) ==> ParseBoolean(c).c == c
    ensures Is(c, Kind.Null) ==> CheckToken(c, NULL_TEXT) == c
  {
    hide FirstToken, Splits, IsLocated, Breaks, SinceBreak;
    var t := c.current.value;
    assert IsLexed(t);
    if Is(c, Boolean) {
      LexedBoolean(t);
    } else if Is(c, Kind.Null) {
      LexedNull(t);
    }
  }

  lemma {:induction false} ValueLocated(c: Context, rules: Rules, text: bytes)
    requires Running(c, text, rules) && !c.complete && !Is(c, Comment) && !Is(c, Whitespace)
    ensures Stepped(ParseAt(c, rules).ok, ParseAt(c, rules).c, text, rules)
    decreases |c.rest|, 1
  {
    hide Located, ArrayLoop, ObjectLoop, ForwardToSeparator, NumberValue, Decode, Report, CheckToken;
    ReportsLocated(text, rules);
    assert c.current.Some? by { HasToken(c, text, rules); }
    LiteralsMatch(c, text, rules);
    if Is(c, ArrayBegin) {
      ArrayLocated(c, rules, [], false, text);
    } else if Is(c, ObjectBegin) {
      ObjectLocated(c, rules, [], false, text);
    } else if !StartsValue(c.current.value) {
      ForwardLocated(Report(c, InvalidToken), rules, text);
    }
  }

  lemma HasToken(c: Context, text: bytes, rules: Rules)
    requires Running(c, text, rules) && !c.complete
    ensures c.current.Some?
  {
  }

  /** `next` stops at significant tokens only. */
  lemma {:induction false} AdvanceStops(c: Context, rules: Rules)
    ensures var s := Advance(c, rules); s.ok ==> !Is(s.c, Comment) && !Is(s.c, Whitespace)
    decreases |c.rest|
  {
    hide FirstToken, Move;
    var m := Move(c);
    if m.rest != [] {
      var d := Take(m);
      MoveKeepsRest(c);
      if Is(d, Whitespace) {
        AdvanceStops(d, rules);
      } else if Is(d, Comment) {
        AdvanceStops(if rules.comments then d else Report(d, CommentNotAllowed), rules);
      }
    }
  }

  lemma MoveKeepsRest(c: Context)
    ensures Move(c).rest == c.rest
  {
  }

  lemma {:induction false} GenericLocated(c: Context, rules: Rules, text: bytes)
    requires Located(c, text, rules)
    ensures Stepped(ParseGeneric(c, rules).ok, ParseGeneric(c, rules).c, text, rules)
    decreases |c.rest|, 0
  {
    hide Located, Advance, ParseAt;
    AdvanceLocated(c, rules, text);
    AdvanceStops(c, rules);
    var s := Advance(c, rules);
    if s.ok {
      ValueLocated(s.c, rules, text);
    }
  }

  lemma {:induction false} ArrayLocated(c: Context, rules: Rules, items: seq<Value>, trailing: bool, text: bytes)
    requires Running(c, text, rules)
    ensures var r := ArrayLoop(c, rules, items, trailing); Stepped(r.ok, r.c, text, rules)
    decreases |c.rest|, 0
  {
    hide Located, Advance, ParseAt, Report, Extends;
    ReportsLocated(text, rules);
    var s := Advance(c, rules);
    AdvanceLocated(c, rules, text);
    AdvanceStops(c, rules);
    if s.ok {
      assert s.c.current.Some? by { HasToken(s.c, text, rules); }
    }
    if s.ok && !Is(s.c, ArrayEnd) {
      ValueLocated(s.c, rules, text);
      var v := ParseAt(s.c, rules);
      LaterRest(s.c, v.c);
      AdvanceLocated(v.c, rules, text);
      var n := Advance(v.c, rules);
      var items := if v.ok then items + [v.val] else items;
      if n.ok {
        assert n.c.current.Some? by { HasToken(n.c, text, rules); }
      }
      if n.ok && !Is(n.c, ArrayEnd) {
        if Is(n.c, Separator) {
          ArrayLocated(n.c, rules, items, true, text);
        } else {
          ArrayLocated(Report(n.c, InvalidArrayEntry), rules, items, if v.ok then false else trailing, text);
        }
      }
    }
  }

  lemma LaterRest(c: Context, d: Context)
    requires Extends(c, d)
    ensures |d.rest| <= |c.rest|
  {
  }

  lemma KeyLocated(c: Context, rules: Rules, text: bytes)
    requires Running(c, text, rules) && !c.complete && !Is(c, ObjectEnd)
    ensures Running(ParseKey(c, rules).c, text, rules) && KeepsPlace(c, ParseKey(c, rules).c)
  {
    hide Located, Decode, Report;
    ReportsLocated(text, rules);
    assert c.current.Some? by { HasToken(c, text, rules); }
  }

  lemma {:induction false} ObjectLocated(c: Context, rules: Rules, members: seq<Member>, trailing: bool, text: bytes)
    requires Running(c, text, rules)
    ensures var r := ObjectLoop(c, rules, members, trailing); Stepped(r.ok, r.c, text, rules)
    decreases |c.rest|, 0
  {
    hide Located, Advance, ObjectField, Report, ParseKey;
    ReportsLocated(text, rules);
    var s := Advance(c, rules);
    AdvanceLocated(c, rules, text);
    if s.ok {
      assert s.c.current.Some? by { HasToken(s.c, text, rules); }
    }
    if s.ok && !Is(s.c, ObjectEnd) {
      var k := ParseKey(s.c, rules);
      KeyLocated(s.c, rules, text);
      FieldLocated(k.c, rules, members, k.text, trailing && !Is(s.c, String), text);
    }
  }

  lemma {:induction false} FieldLocated(
    c: Context, rules: Rules, members: seq<Member>, key: bytes, trailing: bool, text: bytes)
    requires Running(c, text, rules)
    ensures var r := ObjectField(c, rules, members, key, trailing); Stepped(r.ok, r.c, text, rules)
    decreases |c.rest|, 2
  {
    hide Located, Advance, ObjectLoop, FieldValue, Report, Find, Put, Extends;
    ReportsLocated(text, rules);
    var v := FieldValue(c, rules);
    FieldValueLocated(c, rules, text);
    if v.ok {
      assert v.c.current.Some? by { HasToken(v.c, text, rules); }
      var d := if Find(members, key).None? then v.c else Report(v.c, DuplicateKey);
      AdvanceLocated(d, rules, text);
      var n := Advance(d, rules);
      LaterRest(d, n.c);
      var members := Put(members, key, v.val);
      if n.ok {
        assert n.c.current.Some? by { HasToken(n.c, text, rules); }
      }
      if n.ok && !Is(n.c, ObjectEnd) {
        if Is(n.c, Separator) {
          ObjectLocated(n.c, rules, members, true, text);
        } else {
          ObjectLocated(Report(n.c, InvalidObjectToken), rules, members, trailing, text);
        }
      }
    }
  }

  lemma {:induction false} FieldValueLocated(c: Context, rules: Rules, text: bytes)
    requires Running(c, text, rules)
    ensures Stepped(FieldValue(c, rules).ok, FieldValue(c, rules).c, text, rules)
    decreases |c.rest|, 1
  {
    hide Located, Advance, ParseGeneric, Report;
    ReportsLocated(text, rules);
    var s := Advance(c, rules);
    AdvanceLocated(c, rules, text);
    if s.ok {
      assert s.c.current.Some? by { HasToken(s.c, text, rules); }
      GenericLocated(if Is(s.c, KeyDelimiter) then s.c else Report(s.c, InvalidDelimiter), rules, text);
    }
  }

  lemma {:induction false} DrainLocated(c: Context, rules: Rules, text: bytes)
    requires Running(c, text, rules)
    ensures Running(Drain(c, rules), text, rules)
    decreases |c.rest|
  {
    hide Located, Advance, Report, AllNul;
    ReportsLocated(text, rules);
    var s := Advance(c, rules);
    AdvanceLocated(c, rules, text);
    if s.ok {
      assert s.c.current.Some? by { HasToken(s.c, text, rules); }
      if Is(s.c, Whitespace) || Is(s.c, Comment) || Is(s.c, Unknown) || AllNul(Current(s.c).text) {
        DrainLocated(s.c, rules, text);
      } else {
        DrainLocated(Report(s.c, DataAfterEnd), rules, text);
      }
    }
  }

  lemma {:induction false} DepthLocated(c: Context, rules: Rules, v: Value, depth: nat, text: bytes)
    requires Running(c, text, rules)
    ensures Running(CheckDepth(c, rules, v, depth), text, rules)
    decreases v, 1
  {
    hide Located, Report;
    ReportsLocated(text, rules);
    if IsContainer(v) {
      var d := if depth + 1 == rules.maxDepth then Report(c, TooDeep) else c;
      match v
      case Arr(items) => ItemsLocated(d, rules, items, depth + 1, text);
      case Obj(members) => MembersLocated(d, rules, members, depth + 1, text);
      case _ =>
    }
  }

  lemma {:induction false} ItemsLocated(c: Context, rules: Rules, items: seq<Value>, depth: nat, text: bytes)
    requires Running(c, text, rules)
    ensures Running(CheckItems(c, rules, items, depth), text, rules)
    decreases items, 0
  {
    hide Located;
    if items != [] {
      DepthLocated(c, rules, items[0], depth, text);
      ItemsLocated(CheckDepth(c, rules, items[0], depth), rules, items[1..], depth, text);
    }
  }

  lemma {:induction false} MembersLocated(c: Context, rules: Rules, members: seq<Member>, depth: nat, text: bytes)
    requires Running(c, text, rules)
    ensures Running(CheckMembers(c, rules, members, depth), text, rules)
    decreases members, 0
  {
    hide Located;
    if members != [] {
      assert members[0].val < members[0];
      DepthLocated(c, rules, members[0].val, depth, text);
      MembersLocated(CheckDepth(c, rules, members[0].val, depth), rules, members[1..], depth, text);
    }
  }

  /** In every run, on every text, every problem is at the token it is about, or at the end of the text, and its
      position is the closed form over what comes before. */
  lemma ProblemsAreLocated(text: bytes, rules: Rules)
    ensures forall p :: p in ParseAll(StartOf(text), rules).c.log ==> IsLocated(p, text, rules)
  {
    hide Drain, CheckDepth, ParseGeneric, Report, Located, IsLocated;
    ReportsLocated(text, rules);
    var c := StartOf(text);
    StartLocated(text, rules);
    var v := ParseGeneric(c, rules);
    GenericLocated(c, rules, text);
    var d := if v.ok then v.c else Report(v.c, NoInput);
    DrainLocated(d, rules, text);
    var e := if d.log == [] && rules.completeParse then Drain(d, rules) else d;
    var f := if e.log == [] && rules.requireDocument && !IsContainer(v.val) then Report(e, NotADocument) else e;
    assert Running(f, text, rules);
    DepthLocated(f, rules, v.val, 0, text);
    LogIsLocated(f, text, rules);
    LogIsLocated(CheckDepth(f, rules, v.val, 0), text, rules);
  }

  lemma StartLocated(text: bytes, rules: Rules)
    ensures Located(StartOf(text), text, rules)
  {
  }

  lemma LogIsLocated(c: Context, text: bytes, rules: Rules)
    requires Running(c, text, rules)
    ensures forall p :: p in c.log ==> IsLocated(p, text, rules)
  {
  }

  /** In particular `check_token` never reports: a literal that is cut short is an invalid token instead. */
  lemma NoTokenMismatch(text: bytes, rules: Rules)
    ensures forall p :: p in ParseAll(StartOf(text), rules).c.log ==> p.reason != TokenMismatch
  {
    hide ParseAll, Lex, Texts;
    ProblemsAreLocated(text, rules);
  }
}
