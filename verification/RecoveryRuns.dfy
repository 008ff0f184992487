/** The parser run on a derivation of its text, step by step. */
module RecoveryRuns {
  import opened Bytes
  import opened Json
  import opened StringCodec
  import opened TokenPatterns
  import opened Tokenizing
  import opened ParserSpec
  import opened Grammar
  import opened GrammarTheorems
  import opened Recovery
  import opened Positions

  // ---- where a context stands in its text -----------------------------------------------------------------------

  /** `tail` is what is left of the text after some of its tokens. */
  ghost predicate IsTail(text: bytes, tail: bytes)
    decreases |text|
  {
    text == tail || (text != [] && IsTail(text[|FirstToken(text).text|..], tail))
  }

  lemma {:induction false} TailNext(text: bytes, tail: bytes)
    requires IsTail(text, tail) && tail != []
    ensures IsTail(text, tail[|FirstToken(tail).text|..])
    decreases |text|
  {
    hide FirstToken;
    if text != tail {
      TailNext(text[|FirstToken(text).text|..], tail);
    } else {
      var after := tail[|FirstToken(tail).text|..];
      assert IsTail(after, after);
    }
  }

  lemma {:induction false} TailIsShorter(text: bytes, tail: bytes)
    requires IsTail(text, tail)
    ensures |tail| <= |text| && |Stream(tail, true)| <= |Stream(text, true)|
    decreases |text|
  {
    hide FirstToken;
    if text != tail {
      TailIsShorter(text[|FirstToken(text).text|..], tail);
    }
  }

  /** A significant token is where `SuffixAt` looks for it. */
  lemma {:induction false} SuffixIsTail(text: bytes, tail: bytes)
    requires IsTail(text, tail) && tail != [] && IsSignificant(FirstToken(tail))
    ensures SuffixAt(text, |Stream(tail[|FirstToken(tail).text|..], true)|) == tail
    decreases |text|
  {
    hide FirstToken;
    var after := text[|FirstToken(text).text|..];
    if text != tail {
      StreamUnfold(tail, true);
      TailIsShorter(after, tail);
      SuffixIsTail(after, tail);
    }
  }

  /** The context is at a token of the text, or at its end. */
  ghost predicate Stands(c: Context, text: bytes) {
    && c.line > 0
    && if c.complete then
         && c.rest == [] && c.character == |text|
         && c.column == 1 + SinceBreak(text) && c.line >= 1 + Breaks(text)
       else
         && c.current.Some? && c.current.value.text + c.rest != []
         && FirstToken(c.current.value.text + c.rest) == c.current.value
         && IsTail(text, c.current.value.text + c.rest) && text == c.passed + (c.current.value.text + c.rest)
         && c.character == |c.passed| && c.line == 1 + Breaks(c.passed) && c.column == 1 + SinceBreak(c.passed)
  }

  ghost predicate Ready(c: Context, text: bytes) { c == StartOf(text) || Stands(c, text) }

  /** The problems but for comments that are not allowed, which are reported in passing. */
  function Others(log: seq<Problem>): seq<Problem> {
    if log == [] then []
    else Others(log[..|log| - 1]) + if log[|log| - 1].reason == CommentNotAllowed then [] else [log[|log| - 1]]
  }

  lemma OthersReport(c: Context, reason: Reason)
    ensures Others(Report(c, reason).log)
         == Others(c.log) + if reason == CommentNotAllowed then []
                            else [Problem(c.line, c.column, c.character, reason)]
  {
    var log := Report(c, reason).log;
    assert log[..|log| - 1] == c.log;
  }

  ghost predicate Matches(ps: seq<Problem>, fs: seq<Fault>, text: bytes) {
    |ps| == |fs| && forall i :: 0 <= i < |ps| ==> ps[i].reason == fs[i].reason && IsAtPlace(ps[i], fs[i].place, text)
  }

  /** From `c` to `d` these problems have been reported. */
  ghost predicate Logged(c: Context, d: Context, fs: seq<Fault>, text: bytes) {
    Others(c.log) <= Others(d.log) && Matches(Others(d.log)[|Others(c.log)|..], fs, text)
  }

  lemma NothingLogged(c: Context, d: Context, text: bytes)
    requires Others(c.log) == Others(d.log)
    ensures Logged(c, d, [], text)
  {
  }

  lemma LoggedThen(c: Context, d: Context, e: Context, fs: seq<Fault>, gs: seq<Fault>, text: bytes)
    requires Logged(c, d, fs, text) && Logged(d, e, gs, text)
    ensures Logged(c, e, fs + gs, text)
  {
    hide Others, IsAtPlace;
    var a, b, z := Others(c.log), Others(d.log), Others(e.log);
    var ps, qs := b[|a|..], z[|b|..];
    assert z[|a|..] == ps + qs;
  }

  lemma OneLogged(c: Context, d: Context, p: Problem, f: Fault, text: bytes)
    requires Others(d.log) == Others(c.log) + [p] && p.reason == f.reason && IsAtPlace(p, f.place, text)
    ensures Logged(c, d, [f], text)
  {
    hide Others, IsAtPlace;
    assert Others(d.log)[|Others(c.log)|..] == [p];
  }

  /** The place of a context. */
  ghost predicate IsPlaced(c: Context, place: Place, text: bytes) {
    && Stands(c, text)
    && if c.complete then place.AtEnd? && c.line == 1 + Breaks(text) + place.late
       else IsSignificant(Current(c)) && place == OnToken(|Stream(c.rest, true)|)
  }

  lemma PlaceOfContext(c: Context, reason: Reason, place: Place, text: bytes)
    requires IsPlaced(c, place, text)
    ensures IsAtPlace(Problem(c.line, c.column, c.character, reason), place, text)
  {
    hide FirstToken, Stream, IsTail, IsSignificant, Breaks, SinceBreak;
    if !c.complete {
      var tail := c.current.value.text + c.rest;
      assert tail[|c.current.value.text|..] == c.rest;
      SuffixIsTail(text, tail);
      assert text[..|text| - |tail|] == c.passed;
    }
  }

  /** A problem reported at a token, or at the end. */
  lemma ReportIsLogged(c: Context, reason: Reason, place: Place, text: bytes)
    requires IsPlaced(c, place, text) && reason != CommentNotAllowed
    ensures IsPlaced(Report(c, reason), place, text)
    ensures Logged(c, Report(c, reason), [Fault(reason, place)], text)
  {
    hide Stands, Stream, IsAtPlace, Others, IsSignificant, Logged;
    OthersReport(c, reason);
    ReportStands(c, reason, text);
    PlaceOfContext(c, reason, place, text);
    OneLogged(c, Report(c, reason), Problem(c.line, c.column, c.character, reason), Fault(reason, place), text);
  }

  /** `next` goes to the next token of the stream, or to the end. */
  ghost predicate StepsTo(c: Context, s: Taken, text: bytes) {
    var ts := Stream(c.rest, true);
    && Stands(s.c, text) && Others(s.c.log) == Others(c.log) && (s.ok <==> ts != []) && (s.ok <==> !s.c.complete)
    && (if s.ok then Current(s.c) == ts[0] && IsSignificant(ts[0]) && IsLexed(ts[0])
                     && Stream(s.c.rest, true) == ts[1..]
        else s.c.rest == [] && s.c.line == if c.complete then c.line + 1 else 1 + Breaks(text))
  }

  /** The position part of `next`. */
  lemma MoveStands(c: Context, text: bytes)
    requires Ready(c, text)
    ensures var m := Move(c);
      && m.rest == c.rest && m.log == c.log && m.complete == c.complete && m.line > 0
      && (c.complete ==> Stands(m, text) && m.line == c.line + 1)
      && (!c.complete ==>
            && text == m.passed + c.rest && IsTail(text, c.rest) && m.character == |m.passed|
            && m.line == 1 + Breaks(m.passed) && m.column == 1 + SinceBreak(m.passed))
  {
    hide FirstToken, Breaks, SinceBreak, LineAfter, ColumnAfter;
    StartCounts();
    if c != StartOf(text) && !c.complete {
      var tail := c.current.value.text + c.rest;
      assert tail[|c.current.value.text|..] == c.rest;
      TailNext(text, tail);
      MoveOver(c.passed, c.current.value.text);
    }
  }

  /** The next token of any kind. */
  lemma TakeStands(c: Context, text: bytes)
    requires Ready(c, text) && c.rest != []
    ensures var (d, t) := (Take(Move(c)), FirstToken(c.rest));
      && Stands(d, text) && !d.complete && d.log == c.log && d.current == Some(t) && IsLexed(t)
      && d.rest == c.rest[|t.text|..] && |d.rest| < |c.rest|
  {
    hide FirstToken, Move, Stream, IsTail, Breaks, SinceBreak;
    MoveStands(c, text);
    LexStep(c.rest);
    assert FirstToken(c.rest).text + c.rest[|FirstToken(c.rest).text|..] == c.rest;
    assert c.complete ==> c.rest == [] by { AtEndOrNot(c, text); }
  }

  lemma AtEndOrNot(c: Context, text: bytes)
    requires Ready(c, text)
    ensures c.complete ==> c.rest == []
  {
  }

  lemma {:induction false} AdvanceSteps(c: Context, rules: Rules, text: bytes)
    requires Ready(c, text)
    ensures StepsTo(c, Advance(c, rules), text)
    decreases |c.rest|
  {
    hide FirstToken, Move, Stream, Others, Take, IsTail, Breaks, SinceBreak;
    MoveStands(c, text);
    StreamUnfold(c.rest, true);
    if c.rest == [] {
      assert !c.complete ==> Move(c).passed == text by { assert Move(c).passed + [] == Move(c).passed; }
    } else {
      TakeStands(c, text);
      hide Stands, IsLexed;
      var d, t := Take(Move(c)), FirstToken(c.rest);
      if Is(d, Whitespace) {
        AdvanceSteps(d, rules, text);
        assert Stream(c.rest, true) == [] + Stream(d.rest, true);
      } else if Is(d, Comment) {
        var e := if rules.comments then d else Report(d, CommentNotAllowed);
        OthersReport(d, CommentNotAllowed);
        assert Stands(e, text) by { ReportStands(d, CommentNotAllowed, text); }
        AdvanceSteps(e, rules, text);
        assert Stream(c.rest, true) == [] + Stream(d.rest, true);
      } else {
        assert Stream(c.rest, true) == [t] + Stream(d.rest, true);
      }
    }
  }

  lemma ReportStands(c: Context, reason: Reason, text: bytes)
    requires Stands(c, text)
    ensures Stands(Report(c, reason), text)
  {
    hide FirstToken, IsTail, Breaks, SinceBreak;
  }

  lemma LoggedFrom(c: Context, d: Context, e: Context, fs: seq<Fault>, text: bytes)
    requires Others(c.log) == Others(d.log)
    ensures Logged(c, e, fs, text) == Logged(d, e, fs, text)
  {
  }

  lemma LoggedTo(c: Context, d: Context, e: Context, fs: seq<Fault>, text: bytes)
    requires Others(d.log) == Others(e.log)
    ensures Logged(c, d, fs, text) == Logged(c, e, fs, text)
  {
  }

  // ---- a derivation is run --------------------------------------------------------------------------------------

  /** What a run from `c` has come to. */
  ghost predicate Ran(
    c: Context, r: Parsed, ok: bool, late: nat, v: Value, rest: seq<Token>, fs: seq<Fault>, text: bytes) {
    && r.ok == ok && r.val == v && Stream(r.c.rest, true) == rest && Logged(c, r.c, fs, text)
    && if ok then Stands(r.c, text) && !r.c.complete && IsSignificant(Current(r.c)) else IsAtEnd(r.c, late, text)
  }

  /** The context is at the token `t`, in front of `ts`. */
  ghost predicate IsAt(c: Context, t: Token, ts: seq<Token>, text: bytes) {
    && Stands(c, text) && !c.complete && Current(c) == t && IsSignificant(t) && IsLexed(t)
    && Stream(c.rest, true) == ts
  }

  /** The context is at the end, and `next` has been called again so often. */
  ghost predicate IsAtEnd(c: Context, late: nat, text: bytes) {
    Stands(c, text) && c.complete && c.rest == [] && c.line == 1 + Breaks(text) + late
  }

  /** The next call of `next` that finds no token makes it so many. */
  ghost predicate IsBefore(c: Context, late: nat, text: bytes) {
    if c.complete then late > 0 && IsAtEnd(c, late - 1, text) else late == 0
  }

  lemma StepTo(c: Context, rules: Rules, t: Token, ts: seq<Token>, text: bytes)
    requires Ready(c, text) && Stream(c.rest, true) == [t] + ts
    ensures var s := Advance(c, rules); s.ok && IsAt(s.c, t, ts, text) && Others(s.c.log) == Others(c.log)
    ensures |Advance(c, rules).c.rest| < |c.rest|
  {
    hide Advance, Stream, Stands, Others, IsLexed, IsSignificant;
    AdvanceSteps(c, rules, text);
    assert ([t] + ts)[1..] == ts;
  }

  lemma StepToEnd(c: Context, late: nat, rules: Rules, text: bytes)
    requires Ready(c, text) && IsBefore(c, late, text) && Stream(c.rest, true) == []
    ensures var s := Advance(c, rules);
      !s.ok && IsAtEnd(s.c, late, text) && Stream(s.c.rest, true) == [] && Others(s.c.log) == Others(c.log)
  {
    hide Advance, Stands, Others, IsLexed, IsSignificant, Breaks;
    AdvanceSteps(c, rules, text);
  }

  lemma ReportAt(c: Context, reason: Reason, t: Token, ts: seq<Token>, text: bytes)
    requires IsAt(c, t, ts, text) && reason != CommentNotAllowed
    ensures IsAt(Report(c, reason), t, ts, text)
    ensures Logged(c, Report(c, reason), [Fault(reason, OnToken(|ts|))], text)
  {
    hide Stream, Stands, IsLexed, Logged, IsSignificant;
    ReportIsLogged(c, reason, OnToken(|ts|), text);
  }

  lemma ReportAtEnd(c: Context, late: nat, reason: Reason, text: bytes)
    requires IsAtEnd(c, late, text) && reason != CommentNotAllowed
    ensures IsAtEnd(Report(c, reason), late, text) && Logged(c, Report(c, reason), [Fault(reason, AtEnd(late))], text)
  {
    hide Stands, Logged, Breaks;
    ReportIsLogged(c, reason, AtEnd(late), text);
  }

  lemma {:induction false} RunForward(
    skipped: seq<Token>, stop: Option<Token>, rest: seq<Token>, c: Context, rules: Rules, text: bytes)
    requires Ready(c, text) && !c.complete && Stream(c.rest, true) == skipped + Opt(stop) + rest
    requires forall i :: 0 <= i < |skipped| ==> IsSkippable(skipped[i])
    requires if stop.Some? then !IsSkippable(stop.value) else rest == []
    ensures var s := ForwardToSeparator(c, rules);
      && s.ok == stop.Some? && Others(s.c.log) == Others(c.log) && Stream(s.c.rest, true) == rest
      && if s.ok then IsAt(s.c, stop.value, rest, text) else IsAtEnd(s.c, 0, text)
    decreases |c.rest|
  {
    hide Advance, Stream, Stands, Others, IsLexed, IsSignificant;
    if skipped == [] && stop.None? {
      StepToEnd(c, 0, rules, text);
    } else if skipped == [] {
      StepTo(c, rules, stop.value, rest, text);
    } else {
      assert skipped + Opt(stop) + rest == [skipped[0]] + (skipped[1..] + Opt(stop) + rest);
      StepTo(c, rules, skipped[0], skipped[1..] + Opt(stop) + rest, text);
      RunForward(skipped[1..], stop, rest, Advance(c, rules).c, rules, text);
    }
  }

  /** The switch of `parse_generic`, one side at a time. */
  lemma InvalidStep(c: Context, rules: Rules)
    requires var t := Current(c); !StartsValue(t) && IsSignificant(t)
    ensures var s := ForwardToSeparator(Report(c, InvalidToken), rules);
      ParseAt(c, rules) == Parsed(s.ok, Value.Null, s.c)
  {
    hide ForwardToSeparator, Report, Extends, ArrayLoop, ObjectLoop, ParseBoolean, ParseNumber, ParseString;
  }

  lemma ScalarStep(c: Context, rules: Rules)
    requires var t := Current(c); !t.error
    ensures Current(c).kind == Boolean ==> ParseAt(c, rules) == ParseBoolean(c)
    ensures Current(c).kind == Kind.Null ==> ParseAt(c, rules) == Parsed(true, Value.Null, CheckToken(c, NULL_TEXT))
    ensures Current(c).kind == Number ==> ParseAt(c, rules) == ParseNumber(c, rules)
    ensures Current(c).kind == String ==>
      ParseAt(c, rules) == Parsed(true, Str(ParseString(c, rules).text), ParseString(c, rules).c)
  {
    hide ForwardToSeparator, Report, Extends, ArrayLoop, ObjectLoop, ParseBoolean, ParseNumber, ParseString, CheckToken;
  }

  lemma ContainerStep(c: Context, rules: Rules)
    ensures Current(c) == OPEN_ARRAY ==> ParseAt(c, rules) == ArrayLoop(c, rules, [], false)
    ensures Current(c) == OPEN_OBJECT ==> ParseAt(c, rules) == ObjectLoop(c, rules, [], false)
  {
    hide ForwardToSeparator, Report, Extends, ArrayLoop, ObjectLoop, ParseBoolean, ParseNumber, ParseString, CheckToken;
  }

  lemma RunJunk(
    t: Token, skipped: seq<Token>, stop: Option<Token>, rest: seq<Token>, c: Context, rules: Rules, text: bytes)
    requires IsAt(c, t, skipped + Opt(stop) + rest, text)
    requires !StartsValue(t) && forall i :: 0 <= i < |skipped| ==> IsSkippable(skipped[i])
    requires if stop.Some? then !IsSkippable(stop.value) else rest == []
    ensures var fs := [Fault(InvalidToken, OnToken(|skipped| + |Opt(stop)| + |rest|))];
      Ran(c, ParseAt(c, rules), stop.Some?, 0, Value.Null, rest, fs, text)
  {
    hide Stream, Stands, Others, ForwardToSeparator, IsLexed, Logged, ParseAt, Report, Extends;
    var d := Report(c, InvalidToken);
    var ts := skipped + Opt(stop) + rest;
    InvalidStep(c, rules);
    ReportAt(c, InvalidToken, t, ts, text);
    RunForward(skipped, stop, rest, d, rules, text);
    LoggedTo(c, d, ForwardToSeparator(d, rules).c, [Fault(InvalidToken, OnToken(|ts|))], text);
  }

  lemma LiteralText(t: Token)
    requires IsLexed(t) && !t.error
    ensures t.kind == Boolean ==> t.text == if At(t.text, 0) == LOWER_T then TRUE_TEXT else FALSE_TEXT
    ensures t.kind == Kind.Null ==> t.text == NULL_TEXT
  {
    hide StringBody, CommentSpan, SpaceLength, RunLength, RunState;
    var s :| s != [] && FirstToken(s) == t;
    CommonPrefixSpec(s, TRUE_TEXT);
    CommonPrefixSpec(s, FALSE_TEXT);
    CommonPrefixSpec(s, NULL_TEXT);
  }

  lemma RunScalar(n: Node, rest: seq<Token>, c: Context, rules: Rules, text: bytes)
    requires n.Scalar? && IsNode(n) && IsAt(c, n.token, rest, text)
    ensures Ran(c, ParseAt(c, rules), true, 0, Kept(n, rules), rest, Faults(n, rules, |rest|), text)
  {
    hide Stream, Stands, Others, IsLexed, Logged, Decode, NumberValue, HasLeadingZero, ParseAt, Report;
    hide IsSignificant;
    ScalarStep(c, rules);
    LiteralText(n.token);
    NothingLogged(c, c, text);
    ReportAt(c, BadString, n.token, rest, text);
    ReportAt(c, Reason.LeadingZero, n.token, rest, text);
  }

  /** The loop of `parse_array`, one round. */
  lemma ArrayStep(c: Context, rules: Rules, items: seq<Value>, trailing: bool)
    ensures var s := Advance(c, rules);
      && (!s.ok ==> ArrayLoop(c, rules, items, trailing) == Parsed(false, Arr(items), Report(s.c, UnmatchedArray)))
      && (s.ok && Is(s.c, ArrayEnd) ==>
            ArrayLoop(c, rules, items, trailing)
            == Parsed(true, Arr(items), TrailingComma(s.c, rules, trailing, TrailingCommaInArray)))
      && (s.ok && !Is(s.c, ArrayEnd) ==>
            var v := ParseAt(s.c, rules);
            var more := items + if v.ok then [v.val] else [];
            var n := Advance(v.c, rules);
            ArrayLoop(c, rules, items, trailing) ==
              if !n.ok then Parsed(false, Arr(more), Report(n.c, UnmatchedArray))
              else if Is(n.c, ArrayEnd) then Parsed(true, Arr(more), n.c)
              else if Is(n.c, Separator) then ArrayLoop(n.c, rules, more, true)
              else ArrayLoop(Report(n.c, InvalidArrayEntry), rules, more, if v.ok then false else trailing))
  {
    hide Advance, ParseAt, Report, Extends, TrailingComma;
    assert items + [] == items;
  }

  ghost predicate AreEntries(entries: seq<Entry>, closed: bool) {
    && (forall i :: 0 <= i < |entries| ==> IsNode(entries[i].val) && !IsPlain(Tokens(entries[i].val)[0], ArrayEnd))
    && (forall i :: 0 <= i < |entries| ==> EndsWell(entries[i], i == |entries| - 1, closed))
  }

  lemma EntryTokens(entries: seq<Entry>, closed: bool, rest: seq<Token>)
    requires entries != []
    ensures EntriesTokens(entries, closed) + rest
         == Tokens(entries[0].val) + (Opt(entries[0].after) + (EntriesTokens(entries[1..], closed) + rest))
  {
    hide Tokens, Opt;
    Append3([], Tokens(entries[0].val), Opt(entries[0].after), EntriesTokens(entries[1..], closed), rest);
    NothingInFront(EntriesTokens(entries, closed));
    NothingInFront(Tokens(entries[0].val) + (Opt(entries[0].after) + (EntriesTokens(entries[1..], closed) + rest)));
  }

  lemma NothingInFront(ts: seq<Token>)
    ensures [] + ts == ts
  {
  }

  lemma Append3(a: seq<Token>, b: seq<Token>, c: seq<Token>, d: seq<Token>, e: seq<Token>)
    ensures a + (b + (c + d)) + e == a + (b + (c + (d + e)))
  {
  }

  lemma RestOfEntries(entries: seq<Entry>, closed: bool, rest: seq<Token>)
    requires entries != [] && AreEntries(entries, closed)
    ensures AreEntries(entries[1..], closed) && IsNode(entries[0].val)
    ensures EntriesTokens(entries, closed) + rest
         == Tokens(entries[0].val) + (Opt(entries[0].after) + (EntriesTokens(entries[1..], closed) + rest))
    ensures entries[0].after.None? ==> entries[1..] == [] && (closed ==> IsOk(entries[0].val))
    ensures entries[0].after.Some? ==> IsOk(entries[0].val) && !IsPlain(entries[0].after.value, ArrayEnd)
    ensures !IsPlain(Tokens(entries[0].val)[0], ArrayEnd)
  {
    hide IsNode, Tokens, IsOk, EntriesTokens;
    EntryTokens(entries, closed, rest);
    assert EndsWell(entries[0], 0 == |entries| - 1, closed);
    forall i | 0 <= i < |entries[1..]| ensures EndsWell(entries[1..][i], i == |entries[1..]| - 1, closed) {
      assert EndsWell(entries[i + 1], i + 1 == |entries| - 1, closed);
    }
  }

  lemma NoMoreTokens(closed: bool, rest: seq<Token>)
    requires closed || rest == []
    ensures EntriesTokens([], closed) + rest == if closed then [CLOSE_ARRAY] + rest else []
  {
  }

  /** The end of an array, before another item. */
  lemma RunNoEntries(
    closed: bool, rest: seq<Token>, c: Context, rules: Rules, items: seq<Value>, trailing: bool, text: bytes)
    requires (closed || rest == []) && Ready(c, text) && !c.complete
    requires Stream(c.rest, true) == EntriesTokens([], closed) + rest
    ensures Ran(c, ArrayLoop(c, rules, items, trailing), closed, 0, Arr(items), rest,
                EntriesFaults([], closed, trailing, rules, |rest|), text)
  {
    hide Advance, Stream, Stands, Others, IsLexed, Logged, Report, ArrayLoop, IsSignificant, Ready, EntriesTokens;
    NoMoreTokens(closed, rest);
    ArrayStep(c, rules, items, trailing);
    var s := Advance(c, rules);
    if closed {
      StepTo(c, rules, CLOSE_ARRAY, rest, text);
      NothingLogged(c, s.c, text);
      ReportAt(s.c, TrailingCommaInArray, CLOSE_ARRAY, rest, text);
      LoggedFrom(c, s.c, Report(s.c, TrailingCommaInArray), [Fault(TrailingCommaInArray, OnToken(|rest|))], text);
    } else {
      StepToEnd(c, 0, rules, text);
      ReportAtEnd(s.c, 0, UnmatchedArray, text);
      LoggedFrom(c, s.c, Report(s.c, UnmatchedArray), [Fault(UnmatchedArray, AtEnd(0))], text);
      assert Stream(Report(s.c, UnmatchedArray).rest, true) == [] by { ReportKeeps(s.c, UnmatchedArray); }
    }
  }

  lemma ReportKeeps(c: Context, reason: Reason)
    ensures var d := Report(c, reason); d.rest == c.rest && d.current == c.current && d.complete == c.complete
  {
  }

  lemma ItemsKeptStep(entries: seq<Entry>, rules: Rules, items: seq<Value>)
    requires entries != []
    ensures var first := if IsOk(entries[0].val) then [Kept(entries[0].val, rules)] else [];
      items + ItemsKept(entries, rules) == items + first + ItemsKept(entries[1..], rules)
  {
    hide IsOk, Kept;
    var first := if IsOk(entries[0].val) then [Kept(entries[0].val, rules)] else [];
    JoinItems(items, first, ItemsKept(entries[1..], rules));
  }

  lemma JoinItems(a: seq<Value>, b: seq<Value>, c: seq<Value>)
    ensures a + (b + c) == a + b + c
  {
  }

  lemma EntriesFaultsStep(entries: seq<Entry>, closed: bool, trailing: bool, rules: Rules, rest: seq<Token>)
    requires entries != []
    ensures var e, tail := entries[0], EntriesTokens(entries[1..], closed) + rest;
      EntriesFaults(entries, closed, trailing, rules, |rest|)
      == Faults(e.val, rules, |Opt(e.after) + tail|)
         + if e.after.None? then if closed then [] else [Fault(UnmatchedArray, AtEnd(EntriesLate(entries)))]
           else if IsPlain(e.after.value, Separator) then EntriesFaults(entries[1..], closed, true, rules, |rest|)
           else [Fault(InvalidArrayEntry, OnToken(|tail|))] + EntriesFaults(entries[1..], closed, false, rules, |rest|)
  {
    hide Faults, EntriesTokens, EntriesLate, Late, IsOk;
  }

  /** After a value: the closing bracket, or the end of the input. */
  lemma RunToClose(closed: bool, close: Token, rest: seq<Token>, reason: Reason, late: nat, c: Context, d: Context,
                   rules: Rules, fs: seq<Fault>, text: bytes)
    requires Logged(c, d, fs, text) && Ready(d, text) && reason != CommentNotAllowed
    requires Stream(d.rest, true) == if closed then [close] + rest else []
    requires !closed ==> IsBefore(d, late, text)
    ensures Advance(d, rules).ok == closed
    ensures var n := Advance(d, rules);
      if closed then IsAt(n.c, close, rest, text) && Logged(c, n.c, fs, text)
      else
        var e := Report(n.c, reason);
        IsAtEnd(e, late, text) && Stream(e.rest, true) == [] && Logged(c, e, fs + [Fault(reason, AtEnd(late))], text)
  {
    hide Advance, Stream, Stands, Others, IsLexed, Logged, Report, IsSignificant, Ready, IsBefore;
    var n := Advance(d, rules);
    if closed {
      StepTo(d, rules, close, rest, text);
      LoggedTo(c, d, n.c, fs, text);
    } else {
      StepToEnd(d, late, rules, text);
      ReportAtEnd(n.c, late, reason, text);
      ReportKeeps(n.c, reason);
      LoggedTo(c, d, n.c, fs, text);
      LoggedThen(c, n.c, Report(n.c, reason), fs, [Fault(reason, AtEnd(late))], text);
    }
  }

  /** After a value: another token, which is a problem if it is no comma. */
  lemma RunToNext(t: Token, ts: seq<Token>, reason: Reason, c: Context, d: Context, rules: Rules, fs: seq<Fault>,
                  text: bytes)
    requires Logged(c, d, fs, text) && Ready(d, text) && Stream(d.rest, true) == [t] + ts && reason != CommentNotAllowed
    ensures var n := Advance(d, rules);
      && n.ok && IsAt(n.c, t, ts, text) && |n.c.rest| < |d.rest| && Logged(c, n.c, fs, text)
      && var e := Report(n.c, reason);
         IsAt(e, t, ts, text) && e.rest == n.c.rest && Logged(c, e, fs + [Fault(reason, OnToken(|ts|))], text)
  {
    hide Advance, Stream, Stands, Others, IsLexed, Logged, Report, IsSignificant, Ready;
    var n := Advance(d, rules);
    StepTo(d, rules, t, ts, text);
    LoggedTo(c, d, n.c, fs, text);
    ReportAt(n.c, reason, t, ts, text);
    ReportKeeps(n.c, reason);
    LoggedThen(c, n.c, Report(n.c, reason), fs, [Fault(reason, OnToken(|ts|))], text);
  }

  /** The loop of `parse_array` on the items of a derivation. */
  lemma {:induction false} RunEntries(entries: seq<Entry>, closed: bool, rest: seq<Token>, c: Context, rules: Rules,
                                      items: seq<Value>, trailing: bool, text: bytes)
    requires AreEntries(entries, closed) && (closed || rest == [])
    requires Ready(c, text) && !c.complete && Stream(c.rest, true) == EntriesTokens(entries, closed) + rest
    ensures Ran(c, ArrayLoop(c, rules, items, trailing), closed, EntriesLate(entries),
                Arr(items + ItemsKept(entries, rules)), rest,
                EntriesFaults(entries, closed, trailing, rules, |rest|), text)
    decreases entries, 0, 1
  {
    hide Advance, Stream, Stands, Others, IsLexed, Logged, Report, ArrayLoop, IsSignificant, EntriesTokens;
    hide EntriesFaults, AreEntries, ItemsKept, IsNode, Tokens, Faults, Kept, ParseAt, IsOk, Late, EntriesLate;
    hide Breaks;
    EntriesLateStep(entries);
    if entries == [] {
      ItemsKeptNothing(rules, items);
      RunNoEntries(closed, rest, c, rules, items, trailing, text);
    } else {
      RestOfEntries(entries, closed, rest);
      EntriesFaultsStep(entries, closed, trailing, rules, rest);
      ItemsKeptStep(entries, rules, items);
      ArrayStep(c, rules, items, trailing);
      var e, ts := entries[0], Tokens(entries[0].val);
      var tail := EntriesTokens(entries[1..], closed) + rest;
      var after := Opt(e.after) + tail;
      assert ts + after == [ts[0]] + (ts[1..] + after);
      StepTo(c, rules, ts[0], ts[1..] + after, text);
      var s := Advance(c, rules);
      NoMoreTokens(closed, rest);
      assert e.val < entries[0];
      RunValue(e.val, after, s.c, rules, text);
      var v := ParseAt(s.c, rules);
      var fs := Faults(e.val, rules, |after|);
      var more := items + if v.ok then [v.val] else [];
      LoggedFrom(c, s.c, v.c, fs, text);
      if e.after.None? {
        RunToClose(closed, CLOSE_ARRAY, rest, UnmatchedArray, EntriesLate(entries), c, v.c, rules, fs, text);
        ItemsKeptNothing(rules, more);
        assert fs + [] == fs;
      } else {
        RunMoreEntries(entries, closed, rest, c, v, rules, more, fs, text);
      }
    }
  }

  lemma EntriesLateStep(entries: seq<Entry>)
    ensures EntriesLate([]) == 0
    ensures entries != [] && entries[1..] == [] ==>
      EntriesLate(entries) == if IsOk(entries[0].val) then 0 else Late(entries[0].val) + 1
    ensures entries != [] && (entries[1..] != [] || IsOk(entries[0].val)) ==>
      EntriesLate(entries) == EntriesLate(entries[1..])
  {
    hide IsOk, Late;
    if |entries| == 1 {
      assert EntriesLate(entries[1..]) == 0;
    }
  }

  /** A comma or another token, and more items. */
  lemma {:induction false} RunMoreEntries(entries: seq<Entry>, closed: bool, rest: seq<Token>, c: Context, v: Parsed,
                                          rules: Rules, items: seq<Value>, fs: seq<Fault>, text: bytes)
    requires entries != [] && AreEntries(entries[1..], closed) && (closed || rest == []) && entries[0].after.Some?
    requires var t := entries[0].after.value;
      Stream(v.c.rest, true) == [t] + (EntriesTokens(entries[1..], closed) + rest)
    requires Logged(c, v.c, fs, text) && Ready(v.c, text)
    ensures var n, t := Advance(v.c, rules), entries[0].after.value;
      var tail := EntriesTokens(entries[1..], closed) + rest;
      && n.ok && Current(n.c) == t
      && if IsPlain(t, Separator) then
           Ran(c, ArrayLoop(n.c, rules, items, true), closed, EntriesLate(entries[1..]),
               Arr(items + ItemsKept(entries[1..], rules)), rest,
               fs + EntriesFaults(entries[1..], closed, true, rules, |rest|), text)
         else
           Ran(c, ArrayLoop(Report(n.c, InvalidArrayEntry), rules, items, false), closed, EntriesLate(entries[1..]),
               Arr(items + ItemsKept(entries[1..], rules)), rest,
               fs + ([Fault(InvalidArrayEntry, OnToken(|tail|))]
                     + EntriesFaults(entries[1..], closed, false, rules, |rest|)), text)
    decreases entries, 0, 0
  {
    hide Advance, Stream, Stands, Others, IsLexed, Logged, Report, ArrayLoop, IsSignificant, EntriesTokens;
    hide EntriesFaults, AreEntries, ItemsKept, IsNode, Tokens, Faults, Kept, ParseAt, IsOk, EntriesLate;
    hide Breaks;
    var t, tail := entries[0].after.value, EntriesTokens(entries[1..], closed) + rest;
    RunToNext(t, tail, InvalidArrayEntry, c, v.c, rules, fs, text);
    var n := Advance(v.c, rules);
    if IsPlain(t, Separator) {
      RunEntries(entries[1..], closed, rest, n.c, rules, items, true, text);
      LoggedThen(c, n.c, ArrayLoop(n.c, rules, items, true).c, fs,
                 EntriesFaults(entries[1..], closed, true, rules, |rest|), text);
    } else {
      var d, junk := Report(n.c, InvalidArrayEntry), [Fault(InvalidArrayEntry, OnToken(|tail|))];
      var gs := EntriesFaults(entries[1..], closed, false, rules, |rest|);
      RunEntries(entries[1..], closed, rest, d, rules, items, false, text);
      LoggedThen(c, d, ArrayLoop(d, rules, items, false).c, fs + junk, gs, text);
      assert fs + junk + gs == fs + (junk + gs);
    }
  }

  lemma ItemsKeptNothing(rules: Rules, items: seq<Value>)
    ensures items + ItemsKept([], rules) == items
  {
  }

  // ---- objects --------------------------------------------------------------------------------------------------

  /** The loop of `parse_object`, up to the key. */
  lemma ObjectStep(c: Context, rules: Rules, members: seq<Member>, trailing: bool)
    ensures var s := Advance(c, rules);
      && (!s.ok ==>
            ObjectLoop(c, rules, members, trailing) == Parsed(false, Obj(members), Report(s.c, EndInsideObject)))
      && (s.ok && Is(s.c, ObjectEnd) ==>
            ObjectLoop(c, rules, members, trailing)
            == Parsed(true, Obj(members), TrailingComma(s.c, rules, trailing, TrailingCommaInObject)))
      && (s.ok && !Is(s.c, ObjectEnd) ==>
            var k := ParseKey(s.c, rules);
            ObjectLoop(c, rules, members, trailing)
            == ObjectField(k.c, rules, members, k.text, trailing && !Is(s.c, String)))
  {
    hide Advance, ParseKey, ObjectField, Report, Extends, TrailingComma;
  }

  /** From the key on. */
  lemma FieldStep(c: Context, rules: Rules, members: seq<Member>, key: bytes, trailing: bool)
    ensures var v := FieldValue(c, rules);
      && (!v.ok ==> ObjectField(c, rules, members, key, trailing) == Parsed(false, Obj(members), v.c))
      && (v.ok ==>
            var n := Advance(if Find(members, key).None? then v.c else Report(v.c, DuplicateKey), rules);
            var more := Put(members, key, v.val);
            ObjectField(c, rules, members, key, trailing) ==
              if !n.ok then Parsed(false, Obj(more), Report(n.c, EndInsideObject))
              else if Is(n.c, ObjectEnd) then Parsed(true, Obj(more), n.c)
              else if Is(n.c, Separator) then ObjectLoop(n.c, rules, more, true)
              else ObjectLoop(Report(n.c, InvalidObjectToken), rules, more, trailing))
  {
    hide Advance, ObjectLoop, FieldValue, Report, Extends, Find, Put;
  }

  lemma RunKey(t: Token, ts: seq<Token>, c: Context, rules: Rules, text: bytes)
    requires IsAt(c, t, ts, text)
    ensures var k := ParseKey(c, rules);
      k.text == KeyKept(t, rules) && IsAt(k.c, t, ts, text) && Logged(c, k.c, KeyFaults(t, rules, |ts|), text)
    ensures ParseKey(c, rules).c.rest == c.rest
  {
    hide Stream, Stands, Others, IsLexed, Logged, Decode, Report, IsSignificant;
    NothingLogged(c, c, text);
    ReportAt(c, ExpectingKey, t, ts, text);
    ReportAt(c, BadString, t, ts, text);
    ReportKeeps(c, ExpectingKey);
    ReportKeeps(c, BadString);
  }

  /** What stands in for the colon. */
  lemma RunDelimiter(t: Token, ts: seq<Token>, c: Context, d: Context, rules: Rules, fs: seq<Fault>, text: bytes)
    requires Logged(c, d, fs, text) && Ready(d, text) && Stream(d.rest, true) == [t] + ts
    ensures var n := Advance(d, rules);
      var e := if Is(n.c, KeyDelimiter) then n.c else Report(n.c, InvalidDelimiter);
      && n.ok && IsAt(e, t, ts, text) && |e.rest| < |d.rest|
      && Logged(c, e, fs + DelimiterFaults(t, |ts|), text)
  {
    hide Advance, Stream, Stands, Others, IsLexed, Logged, Report, IsSignificant;
    RunToNext(t, ts, InvalidDelimiter, c, d, rules, fs, text);
    assert fs + [] == fs;
  }

  /** The tokens after a key that end the input before a value. */
  lemma RunCutField(delimiter: Option<Token>, c: Context, d: Context, rules: Rules, fs: seq<Fault>, text: bytes)
    requires Logged(c, d, fs, text) && Ready(d, text) && !d.complete && Stream(d.rest, true) == Opt(delimiter)
    ensures var v := FieldValue(d, rules);
      var gs := if delimiter.None? then [Fault(MissingDelimiter, AtEnd(0))]
                else DelimiterFaults(delimiter.value, 0) + [Fault(IncompleteValue, AtEnd(0))];
      !v.ok && IsAtEnd(v.c, 0, text) && Stream(v.c.rest, true) == [] && Logged(c, v.c, fs + gs, text)
  {
    hide Advance, Stream, Stands, Others, IsLexed, Logged, Report, IsSignificant, Extends, ParseAt;
    if delimiter.None? {
      RunToClose(false, CLOSE_OBJECT, [], MissingDelimiter, 0, c, d, rules, fs, text);
    } else {
      var t := delimiter.value;
      assert Opt(delimiter) == [t] + [];
      RunDelimiter(t, [], c, d, rules, fs, text);
      var n := Advance(d, rules);
      var e := if Is(n.c, KeyDelimiter) then n.c else Report(n.c, InvalidDelimiter);
      var gs := DelimiterFaults(t, 0);
      RunToClose(false, CLOSE_OBJECT, [], IncompleteValue, 0, c, e, rules, fs + gs, text);
      var end := [Fault(IncompleteValue, AtEnd(0))];
      assert fs + gs + end == fs + (gs + end);
    }
  }

  lemma IsAtCurrent(c: Context, text: bytes)
    requires Stands(c, text) && !c.complete && IsSignificant(Current(c))
    ensures IsAt(c, Current(c), Stream(c.rest, true), text)
  {
    hide FirstToken, Stream, IsTail;
    assert FirstToken(c.current.value.text + c.rest) == c.current.value;
  }

  /** The delimiter and the value after a key. */
  lemma {:induction false} RunFieldValue(t: Token, n: Node, after: seq<Token>, c: Context, d: Context, rules: Rules,
                                         fs: seq<Fault>, text: bytes)
    requires Logged(c, d, fs, text) && Ready(d, text) && Stream(d.rest, true) == [t] + (Tokens(n) + after)
    requires IsNode(n) && (IsOk(n) || after == [])
    ensures var v := FieldValue(d, rules);
      var gs := fs + DelimiterFaults(t, |Tokens(n)| + |after|) + Faults(n, rules, |after|);
      && v.ok == IsOk(n) && Stream(v.c.rest, true) == after
      && if v.ok then v.val == Kept(n, rules) && IsAt(v.c, Current(v.c), after, text) && Logged(c, v.c, gs, text)
         else IsAtEnd(v.c, Late(n), text) && Logged(c, v.c, gs + [Fault(IncompleteValue, AtEnd(Late(n)))], text)
    decreases n, 3
  {
    hide Advance, Stream, Stands, Others, IsLexed, Logged, Report, IsSignificant, Extends, ParseAt;
    hide IsNode, IsOk, Tokens, Kept, Faults, DelimiterFaults;
    var ts := Tokens(n);
    RunDelimiter(t, ts + after, c, d, rules, fs, text);
    var s := Advance(d, rules);
    var e := if Is(s.c, KeyDelimiter) then s.c else Report(s.c, InvalidDelimiter);
    assert ts + after == [ts[0]] + (ts[1..] + after);
    StepTo(e, rules, ts[0], ts[1..] + after, text);
    var m := Advance(e, rules);
    RunValue(n, after, m.c, rules, text);
    var v := ParseAt(m.c, rules);
    var ds, gs := fs + DelimiterFaults(t, |ts| + |after|), Faults(n, rules, |after|);
    LoggedFrom(e, m.c, v.c, gs, text);
    LoggedThen(c, e, v.c, ds, gs, text);
    if v.ok {
      IsAtCurrent(v.c, text);
    } else {
      ReportAtEnd(v.c, Late(n), IncompleteValue, text);
      ReportKeeps(v.c, IncompleteValue);
      LoggedThen(c, v.c, Report(v.c, IncompleteValue), ds + gs, [Fault(IncompleteValue, AtEnd(Late(n)))], text);
    }
  }

  ghost predicate AreSlots(slots: seq<Slot>, ending: Ending) {
    && (forall i :: 0 <= i < |slots| ==> IsNode(slots[i].val) && !IsPlain(slots[i].key, ObjectEnd))
    && (forall i :: 0 <= i < |slots| ==> LeadsOn(slots[i], i == |slots| - 1, ending))
    && (ending.NoDelimiter? || ending.NoValue? ==> !IsPlain(ending.key, ObjectEnd))
  }

  lemma RestOfSlots(slots: seq<Slot>, ending: Ending, rest: seq<Token>)
    requires slots != [] && AreSlots(slots, ending)
    ensures var s, tail := slots[0], SlotsTokens(slots[1..], ending) + rest;
      && AreSlots(slots[1..], ending) && IsNode(s.val) && !IsPlain(s.key, ObjectEnd)
      && SlotsTokens(slots, ending) + rest
         == [s.key] + ([s.delimiter] + (Tokens(s.val) + (Opt(s.after) + tail)))
      && (if s.after.Some? then IsOk(s.val) && !IsPlain(s.after.value, ObjectEnd)
          else slots[1..] == [] && (ending.Cut? || (ending.Closed? && IsOk(s.val))))
  {
    hide IsNode, Tokens, IsOk, SlotsTokens;
    SlotTokens(slots, ending, rest);
    assert LeadsOn(slots[0], 0 == |slots| - 1, ending);
    forall i | 0 <= i < |slots[1..]| ensures LeadsOn(slots[1..][i], i == |slots[1..]| - 1, ending) {
      assert LeadsOn(slots[i + 1], i + 1 == |slots| - 1, ending);
    }
  }

  lemma SlotTokens(slots: seq<Slot>, ending: Ending, rest: seq<Token>)
    requires slots != []
    ensures var s, tail := slots[0], SlotsTokens(slots[1..], ending) + rest;
      SlotsTokens(slots, ending) + rest == [s.key] + ([s.delimiter] + (Tokens(s.val) + (Opt(s.after) + tail)))
  {
    hide Tokens, Opt;
    var s, more := slots[0], SlotsTokens(slots[1..], ending);
    Append3([s.key, s.delimiter], Tokens(s.val), Opt(s.after), more, rest);
    assert [s.key, s.delimiter] == [s.key] + [s.delimiter];
  }

  lemma SlotsFaultsStep(
    slots: seq<Slot>, ending: Ending, seen: set<bytes>, trailing: bool, rules: Rules, rest: seq<Token>)
    requires slots != []
    ensures var s, tail := slots[0], SlotsTokens(slots[1..], ending) + rest;
      var after, key := Opt(s.after) + tail, KeyKept(s.key, rules);
      SlotsFaults(slots, ending, seen, trailing, rules, |rest|)
      == KeyFaults(s.key, rules, |[s.delimiter] + (Tokens(s.val) + after)|)
         + DelimiterFaults(s.delimiter, |Tokens(s.val)| + |after|)
         + Faults(s.val, rules, |after|)
         + if !IsOk(s.val) then [Fault(IncompleteValue, AtEnd(Late(s.val)))]
           else
             (if key in seen then [Fault(DuplicateKey, OnToken(|after|))] else [])
             + if s.after.None? then if ending.Closed? then [] else [Fault(EndInsideObject, AtEnd(0))]
               else if IsPlain(s.after.value, Separator) then
                 SlotsFaults(slots[1..], ending, seen + {key}, true, rules, |rest|)
               else
                 [Fault(InvalidObjectToken, OnToken(|tail|))]
                 + SlotsFaults(slots[1..], ending, seen + {key}, trailing && !IsPlain(s.key, String), rules, |rest|)
  {
    hide Faults, SlotsTokens, KeyFaults, DelimiterFaults, KeyKept, IsOk, Tokens;
  }

  lemma FieldsKeptStep(slots: seq<Slot>, rules: Rules, members: seq<Member>)
    ensures FieldsKept([], rules, members) == members
    ensures slots != [] ==>
      FieldsKept(slots, rules, members)
      == FieldsKept(slots[1..], rules,
                    if IsOk(slots[0].val) then Put(members, KeyKept(slots[0].key, rules), Kept(slots[0].val, rules))
                    else members)
  {
    hide IsOk, KeyKept, Kept, Put;
  }

  /** The end of an object, before another whole field. */
  lemma RunEnding(ending: Ending, rest: seq<Token>, c: Context, rules: Rules, members: seq<Member>, trailing: bool,
                  text: bytes)
    requires ending.Closed? || rest == []
    requires ending.NoDelimiter? || ending.NoValue? ==> !IsPlain(ending.key, ObjectEnd)
    requires Ready(c, text) && !c.complete && Stream(c.rest, true) == EndingTokens(ending) + rest
    ensures Ran(c, ObjectLoop(c, rules, members, trailing), ending.Closed?, 0, Obj(members), rest,
                EndingFaults(ending, trailing, rules, |rest|), text)
  {
    hide Advance, Stream, Stands, Others, IsLexed, Logged, Report, ObjectLoop, IsSignificant, KeyFaults;
    hide DelimiterFaults, ParseKey, FieldValue, ObjectField, KeyKept;
    ObjectStep(c, rules, members, trailing);
    NothingLogged(c, c, text);
    var s := Advance(c, rules);
    match ending
    case Closed =>
      RunToClose(true, CLOSE_OBJECT, rest, EndInsideObject, 0, c, c, rules, [], text);
      ReportAt(s.c, TrailingCommaInObject, CLOSE_OBJECT, rest, text);
      LoggedThen(c, s.c, Report(s.c, TrailingCommaInObject), [], [Fault(TrailingCommaInObject, OnToken(|rest|))], text);
      assert [] + [Fault(TrailingCommaInObject, OnToken(|rest|))] == [Fault(TrailingCommaInObject, OnToken(|rest|))];
    case Cut =>
      RunToClose(false, CLOSE_OBJECT, rest, EndInsideObject, 0, c, c, rules, [], text);
      assert [] + [Fault(EndInsideObject, AtEnd(0))] == [Fault(EndInsideObject, AtEnd(0))];
    case NoDelimiter(key) =>
      RunCutKey(key, None, c, rules, members, trailing, text);
    case NoValue(key, delimiter) =>
      assert EndingTokens(ending) + rest == [key] + Opt(Some(delimiter));
      RunCutKey(key, Some(delimiter), c, rules, members, trailing, text);
      var k, d, e := KeyFaults(key, rules, 1), DelimiterFaults(delimiter, 0), [Fault(IncompleteValue, AtEnd(0))];
      assert k + d + e == k + (d + e);
  }

  lemma RunCutKey(key: Token, delimiter: Option<Token>, c: Context, rules: Rules, members: seq<Member>, trailing: bool,
                  text: bytes)
    requires Ready(c, text) && !c.complete && Stream(c.rest, true) == [key] + Opt(delimiter)
    requires !IsPlain(key, ObjectEnd)
    ensures var fs := KeyFaults(key, rules, |Opt(delimiter)|);
      var gs := if delimiter.None? then [Fault(MissingDelimiter, AtEnd(0))]
                else DelimiterFaults(delimiter.value, 0) + [Fault(IncompleteValue, AtEnd(0))];
      Ran(c, ObjectLoop(c, rules, members, trailing), false, 0, Obj(members), [], fs + gs, text)
  {
    hide Advance, Stream, Stands, Others, IsLexed, Logged, Report, ObjectLoop, IsSignificant, KeyFaults;
    hide DelimiterFaults, ParseKey, FieldValue, ObjectField, KeyKept;
    ObjectStep(c, rules, members, trailing);
    StepTo(c, rules, key, Opt(delimiter), text);
    var s := Advance(c, rules);
    RunKey(key, Opt(delimiter), s.c, rules, text);
    var k := ParseKey(s.c, rules);
    LoggedFrom(c, s.c, k.c, KeyFaults(key, rules, |Opt(delimiter)|), text);
    RunCutField(delimiter, c, k.c, rules, KeyFaults(key, rules, |Opt(delimiter)|), text);
    FieldStep(k.c, rules, members, k.text, trailing && !Is(s.c, String));
  }

  ghost predicate AreKeys(seen: set<bytes>, members: seq<Member>) { forall k :: k in seen <==> Find(members, k).Some? }

  lemma KeyIsSeen(seen: set<bytes>, members: seq<Member>, key: bytes, val: Value)
    requires AreKeys(seen, members)
    ensures AreKeys(seen + {key}, Put(members, key, val))
  {
    hide Find, Put;
    forall k ensures k in seen + {key} <==> Find(Put(members, key, val), k).Some? {
      FindPut(members, key, val, k);
    }
  }

  /** The problem of a repeated key is at the last token of its value. */
  lemma RunDuplicate(seen: set<bytes>, members: seq<Member>, key: bytes, after: seq<Token>, c: Context, d: Context,
                     fs: seq<Fault>, text: bytes)
    requires AreKeys(seen, members) && Logged(c, d, fs, text) && IsAt(d, Current(d), after, text)
    ensures var e := if Find(members, key).None? then d else Report(d, DuplicateKey);
      var gs := if key in seen then [Fault(DuplicateKey, OnToken(|after|))] else [];
      IsAt(e, Current(d), after, text) && e.rest == d.rest && Logged(c, e, fs + gs, text)
  {
    hide Stream, Stands, IsLexed, Logged, Report, IsSignificant, Find;
    ReportAt(d, DuplicateKey, Current(d), after, text);
    ReportKeeps(d, DuplicateKey);
    if key in seen {
      assert Find(members, key).Some?;
      LoggedThen(c, d, Report(d, DuplicateKey), fs, [Fault(DuplicateKey, OnToken(|after|))], text);
    } else {
      assert Find(members, key).None?;
      assert fs + [] == fs;
    }
  }

  lemma NoMoreSlotTokens(ending: Ending, rest: seq<Token>)
    ensures SlotsTokens([], ending) + rest == EndingTokens(ending) + rest
  {
  }

  /** The loop of `parse_object` on the fields of a derivation. */
  lemma {:induction false} RunSlots(slots: seq<Slot>, ending: Ending, rest: seq<Token>, c: Context, rules: Rules,
                                    members: seq<Member>, seen: set<bytes>, trailing: bool, text: bytes)
    requires AreSlots(slots, ending) && (ending.Closed? || rest == []) && AreKeys(seen, members)
    requires Ready(c, text) && !c.complete && Stream(c.rest, true) == SlotsTokens(slots, ending) + rest
    ensures Ran(c, ObjectLoop(c, rules, members, trailing), ending.Closed?, SlotsLate(slots),
                Obj(FieldsKept(slots, rules, members)), rest,
                SlotsFaults(slots, ending, seen, trailing, rules, |rest|), text)
    decreases slots, 0, 1
  {
    hide Advance, Stream, Stands, Others, IsLexed, Logged, Report, ObjectLoop, IsSignificant, KeyFaults;
    hide DelimiterFaults, ParseKey, FieldValue, ObjectField, KeyKept, IsNode, IsOk, Tokens, Kept, Faults, SlotsTokens;
    hide SlotsFaults, FieldsKept, AreKeys, EndingFaults, EndingTokens, Find, Put, AreSlots, Late, SlotsLate;
    hide Breaks;
    SlotsLateStep(slots);
    FieldsKeptStep(slots, rules, members);
    ObjectStep(c, rules, members, trailing);
    if slots == [] {
      NoMoreSlotTokens(ending, rest);
      RunNoSlots(ending, rest, c, rules, members, seen, trailing, text);
    } else {
      RestOfSlots(slots, ending, rest);
      SlotsFaultsStep(slots, ending, seen, trailing, rules, rest);
      var f := slots[0];
      var tail := SlotsTokens(slots[1..], ending) + rest;
      var after := Opt(f.after) + tail;
      var ts := [f.delimiter] + (Tokens(f.val) + after);
      StepTo(c, rules, f.key, ts, text);
      var s := Advance(c, rules);
      RunKey(f.key, ts, s.c, rules, text);
      var k := ParseKey(s.c, rules);
      LoggedFrom(c, s.c, k.c, KeyFaults(f.key, rules, |ts|), text);
      CutIsLast(slots, ending, rest);
      assert f.val < slots[0];
      RunFieldValue(f.delimiter, f.val, after, c, k.c, rules, KeyFaults(f.key, rules, |ts|), text);
      var v := FieldValue(k.c, rules);
      FieldStep(k.c, rules, members, k.text, trailing && !Is(s.c, String));
      if v.ok {
        var gs := KeyFaults(f.key, rules, |ts|) + DelimiterFaults(f.delimiter, |Tokens(f.val)| + |after|)
                  + Faults(f.val, rules, |after|);
        RunRestOfSlots(slots, ending, rest, c, v, rules, members, seen, trailing && !Is(s.c, String), gs, text);
      } else {
        FieldsKeptStep([], rules, members);
      }
    }
  }

  lemma RunNoSlots(ending: Ending, rest: seq<Token>, c: Context, rules: Rules, members: seq<Member>, seen: set<bytes>,
                   trailing: bool, text: bytes)
    requires AreSlots([], ending) && (ending.Closed? || rest == [])
    requires Ready(c, text) && !c.complete && Stream(c.rest, true) == EndingTokens(ending) + rest
    ensures Ran(c, ObjectLoop(c, rules, members, trailing), ending.Closed?, 0, Obj(members), rest,
                SlotsFaults([], ending, seen, trailing, rules, |rest|), text)
  {
    hide Stream, Stands, Others, Logged, ObjectLoop, EndingTokens;
    RunEnding(ending, rest, c, rules, members, trailing, text);
  }

  lemma SlotsLateStep(slots: seq<Slot>)
    ensures SlotsLate([]) == 0
    ensures slots != [] && slots[1..] == [] ==>
      SlotsLate(slots) == if IsOk(slots[0].val) then 0 else Late(slots[0].val)
    ensures slots != [] && (slots[1..] != [] || IsOk(slots[0].val)) ==> SlotsLate(slots) == SlotsLate(slots[1..])
  {
    hide IsOk, Late;
    if |slots| == 1 {
      assert SlotsLate(slots[1..]) == 0;
    }
  }

  lemma CutIsLast(slots: seq<Slot>, ending: Ending, rest: seq<Token>)
    requires slots != [] && AreSlots(slots, ending) && (ending.Closed? || rest == [])
    ensures IsOk(slots[0].val) || Opt(slots[0].after) + (SlotsTokens(slots[1..], ending) + rest) == []
  {
    hide IsNode, Tokens, IsOk;
    assert LeadsOn(slots[0], 0 == |slots| - 1, ending);
  }

  /** After the value of a field. */
  lemma {:induction false} RunRestOfSlots(
    slots: seq<Slot>, ending: Ending, rest: seq<Token>, c: Context, v: Parsed, rules: Rules, members: seq<Member>,
    seen: set<bytes>, trailing: bool, fs: seq<Fault>, text: bytes)
    requires slots != [] && AreSlots(slots, ending) && (ending.Closed? || rest == []) && AreKeys(seen, members)
    requires var after := Opt(slots[0].after) + (SlotsTokens(slots[1..], ending) + rest);
      IsAt(v.c, Current(v.c), after, text) && Logged(c, v.c, fs, text)
    ensures var f, tail := slots[0], SlotsTokens(slots[1..], ending) + rest;
      var after, key := Opt(f.after) + tail, KeyKept(f.key, rules);
      var n := Advance(if Find(members, key).None? then v.c else Report(v.c, DuplicateKey), rules);
      var more := Put(members, key, v.val);
      var gs := fs + ((if key in seen then [Fault(DuplicateKey, OnToken(|after|))] else [])
                      + if f.after.None? then if ending.Closed? then [] else [Fault(EndInsideObject, AtEnd(0))]
                        else if IsPlain(f.after.value, Separator) then
                          SlotsFaults(slots[1..], ending, seen + {key}, true, rules, |rest|)
                        else
                          [Fault(InvalidObjectToken, OnToken(|tail|))]
                          + SlotsFaults(slots[1..], ending, seen + {key}, trailing, rules, |rest|));
      Ran(c, if !n.ok then Parsed(false, Obj(more), Report(n.c, EndInsideObject))
             else if Is(n.c, ObjectEnd) then Parsed(true, Obj(more), n.c)
             else if Is(n.c, Separator) then ObjectLoop(n.c, rules, more, true)
             else ObjectLoop(Report(n.c, InvalidObjectToken), rules, more, trailing),
          ending.Closed?, SlotsLate(slots[1..]), Obj(FieldsKept(slots[1..], rules, more)), rest, gs, text)
    decreases slots, 0, 0, 1
  {
    hide Advance, Stream, Stands, Others, IsLexed, Logged, Report, ObjectLoop, IsSignificant;
    hide KeyKept, IsNode, IsOk, Tokens, Kept, SlotsTokens, SlotsFaults, FieldsKept, AreKeys, Find, Put, AreSlots;
    hide SlotsLate, Breaks;
    RestOfSlots(slots, ending, rest);
    var f, tail := slots[0], SlotsTokens(slots[1..], ending) + rest;
    var after, key := Opt(f.after) + tail, KeyKept(f.key, rules);
    var more := Put(members, key, v.val);
    RunDuplicate(seen, members, key, after, c, v.c, fs, text);
    KeyIsSeen(seen, members, key, v.val);
    var d := if Find(members, key).None? then v.c else Report(v.c, DuplicateKey);
    var dup := if key in seen then [Fault(DuplicateKey, OnToken(|after|))] else [];
    if f.after.None? {
      FieldsKeptStep([], rules, more);
      ClosingTokens(ending, rest);
      assert after == tail && slots[1..] == [];
      SlotsLateStep([]);
      RunToClose(ending.Closed?, CLOSE_OBJECT, rest, EndInsideObject, 0, c, d, rules, fs + dup, text);
      var end := if ending.Closed? then [] else [Fault(EndInsideObject, AtEnd(0))];
      assert fs + dup + end == fs + (dup + end);
      assert ending.Closed? ==> fs + dup + end == fs + dup;
    } else {
      RunMoreSlots(slots, ending, rest, c, d, rules, more, seen + {key}, trailing, fs + dup, text);
      var gs := if IsPlain(f.after.value, Separator) then
                  SlotsFaults(slots[1..], ending, seen + {key}, true, rules, |rest|)
                else
                  [Fault(InvalidObjectToken, OnToken(|tail|))]
                  + SlotsFaults(slots[1..], ending, seen + {key}, trailing, rules, |rest|);
      assert fs + dup + gs == fs + (dup + gs);
    }
  }

  /** A comma or another token, and more fields. */
  lemma {:induction false} RunMoreSlots(
    slots: seq<Slot>, ending: Ending, rest: seq<Token>, c: Context, d: Context, rules: Rules, members: seq<Member>,
    seen: set<bytes>, trailing: bool, fs: seq<Fault>, text: bytes)
    requires slots != [] && AreSlots(slots[1..], ending) && (ending.Closed? || rest == []) && AreKeys(seen, members)
    requires slots[0].after.Some? && Ready(d, text) && Logged(c, d, fs, text)
    requires Stream(d.rest, true) == [slots[0].after.value] + (SlotsTokens(slots[1..], ending) + rest)
    ensures var n, t := Advance(d, rules), slots[0].after.value;
      var tail := SlotsTokens(slots[1..], ending) + rest;
      && n.ok && Current(n.c) == t
      && if IsPlain(t, Separator) then
           Ran(c, ObjectLoop(n.c, rules, members, true), ending.Closed?, SlotsLate(slots[1..]),
               Obj(FieldsKept(slots[1..], rules, members)), rest,
               fs + SlotsFaults(slots[1..], ending, seen, true, rules, |rest|), text)
         else
           Ran(c, ObjectLoop(Report(n.c, InvalidObjectToken), rules, members, trailing), ending.Closed?,
               SlotsLate(slots[1..]), Obj(FieldsKept(slots[1..], rules, members)), rest,
               fs + ([Fault(InvalidObjectToken, OnToken(|tail|))]
                     + SlotsFaults(slots[1..], ending, seen, trailing, rules, |rest|)), text)
    decreases slots, 0, 0, 0
  {
    hide Advance, Stream, Stands, Others, IsLexed, Logged, Report, ObjectLoop, IsSignificant;
    hide KeyKept, IsNode, IsOk, Tokens, Kept, SlotsTokens, SlotsFaults, FieldsKept, AreKeys, Find, Put, AreSlots;
    hide SlotsLate, Breaks;
    var t, tail := slots[0].after.value, SlotsTokens(slots[1..], ending) + rest;
    RunToNext(t, tail, InvalidObjectToken, c, d, rules, fs, text);
    var n := Advance(d, rules);
    if IsPlain(t, Separator) {
      var gs := SlotsFaults(slots[1..], ending, seen, true, rules, |rest|);
      RunSlots(slots[1..], ending, rest, n.c, rules, members, seen, true, text);
      LoggedThen(c, n.c, ObjectLoop(n.c, rules, members, true).c, fs, gs, text);
    } else {
      var e, junk := Report(n.c, InvalidObjectToken), [Fault(InvalidObjectToken, OnToken(|tail|))];
      var gs := SlotsFaults(slots[1..], ending, seen, trailing, rules, |rest|);
      RunSlots(slots[1..], ending, rest, e, rules, members, seen, trailing, text);
      LoggedThen(c, e, ObjectLoop(e, rules, members, trailing).c, fs + junk, gs, text);
      assert fs + junk + gs == fs + (junk + gs);
    }
  }

  lemma ClosingTokens(ending: Ending, rest: seq<Token>)
    requires ending.Closed? || (ending.Cut? && rest == [])
    ensures SlotsTokens([], ending) + rest == if ending.Closed? then [CLOSE_OBJECT] + rest else []
  {
  }

  lemma {:induction false} RunValue(n: Node, rest: seq<Token>, c: Context, rules: Rules, text: bytes)
    requires IsNode(n) && (IsOk(n) || rest == []) && IsAt(c, Tokens(n)[0], Tokens(n)[1..] + rest, text)
    ensures Ran(c, ParseAt(c, rules), IsOk(n), Late(n), Kept(n, rules), rest, Faults(n, rules, |rest|), text)
    decreases n, 2
  {
    hide Advance, Stream, Stands, Others, IsLexed, Logged, Report, ArrayLoop, ObjectLoop, IsSignificant;
    hide EntriesTokens, SlotsTokens, EntriesFaults, SlotsFaults, ItemsKept, FieldsKept, ParseAt, NumberValue, Decoded;
    hide EntriesLate, SlotsLate, Breaks;
    match n
    case Scalar(t) =>
      assert [] + rest == rest;
      RunScalar(n, rest, c, rules, text);
    case Junk(t, skipped, stop) =>
      RunJunk(t, skipped, stop, rest, c, rules, text);
    case Array(entries, closed) =>
      ContainerStep(c, rules);
      assert AreEntries(entries, closed);
      RunEntries(entries, closed, rest, c, rules, [], false, text);
      assert [] + ItemsKept(entries, rules) == ItemsKept(entries, rules);
    case Object(slots, ending) =>
      ContainerStep(c, rules);
      assert AreSlots(slots, ending) && AreKeys({}, []);
      RunSlots(slots, ending, rest, c, rules, [], {}, false, text);
  }

  // ---- before and after the value -------------------------------------------------------------------------------

  /** The value at the start of a text. */
  lemma RunText(n: Node, rest: seq<Token>, text: bytes, rules: Rules)
    requires Starts(n, rest, text)
    ensures Ran(StartOf(text), ParseGeneric(StartOf(text), rules), IsOk(n), Late(n), Kept(n, rules), rest,
                Faults(n, rules, |rest|), text)
  {
    hide Advance, Stream, Stands, Others, IsLexed, Logged, IsSignificant, IsNode, IsOk, Tokens, Kept, Faults;
    hide ParseAt;
    var c, ts := StartOf(text), Tokens(n);
    assert ts + rest == [ts[0]] + (ts[1..] + rest);
    StepTo(c, rules, ts[0], ts[1..] + rest, text);
    var s := Advance(c, rules);
    RunValue(n, rest, s.c, rules, text);
    LoggedFrom(c, s.c, ParseAt(s.c, rules).c, Faults(n, rules, |rest|), text);
  }

  lemma {:induction false} RunDrain(rest: seq<Token>, c: Context, rules: Rules, text: bytes)
    requires Ready(c, text) && !c.complete && Stream(c.rest, true) == rest
    ensures var d := Drain(c, rules);
      IsAtEnd(d, 0, text) && Stream(d.rest, true) == [] && Logged(c, d, RestFaults(rest), text)
    decreases |c.rest|
  {
    hide Advance, Stream, Stands, Others, IsLexed, Logged, Report, AllNul, Extends;
    var s := Advance(c, rules);
    if rest == [] {
      StepToEnd(c, 0, rules, text);
      NothingLogged(c, s.c, text);
    } else {
      var t, more := rest[0], rest[1..];
      assert rest == [t] + more;
      StepTo(c, rules, t, more, text);
      LexedKinds(t);
      if AllNul(t.text) {
        RunDrain(more, s.c, rules, text);
        LoggedFrom(c, s.c, Drain(s.c, rules), RestFaults(more), text);
        assert RestFaults(rest) == [] + RestFaults(more) == RestFaults(more);
      } else {
        var e, fault := Report(s.c, DataAfterEnd), [Fault(DataAfterEnd, OnToken(|more|))];
        ReportAt(s.c, DataAfterEnd, t, more, text);
        ReportKeeps(s.c, DataAfterEnd);
        RunDrain(more, e, rules, text);
        LoggedFrom(c, s.c, e, fault, text);
        LoggedThen(c, e, Drain(e, rules), fault, RestFaults(more), text);
      }
    }
  }

  /** `d` is `c` with more problems, all at this place. */
  ghost predicate OnlyLogs(c: Context, d: Context, n: nat, reason: Reason, place: Place, text: bytes) {
    && d == c.(log := d.log)
    && Logged(c, d, seq(n, _ => Fault(reason, place)), text)
  }

  lemma OnlyLogsThen(
    c: Context, d: Context, e: Context, n: nat, m: nat, reason: Reason, place: Place, text: bytes)
    requires OnlyLogs(c, d, n, reason, place, text) && OnlyLogs(d, e, m, reason, place, text)
    ensures OnlyLogs(c, e, n + m, reason, place, text)
  {
    hide Logged;
    LoggedThen(c, d, e, seq(n, _ => Fault(reason, place)), seq(m, _ => Fault(reason, place)), text);
    assert seq(n + m, _ => Fault(reason, place))
        == seq(n, _ => Fault(reason, place)) + seq(m, _ => Fault(reason, place));
  }

  lemma OnlyLogsNothing(c: Context, reason: Reason, place: Place, text: bytes)
    ensures OnlyLogs(c, c, 0, reason, place, text)
  {
    NothingLogged(c, c, text);
    assert seq(0, _ => Fault(reason, place)) == [];
  }

  lemma ReportOnlyLogs(c: Context, reason: Reason, place: Place, text: bytes)
    requires IsPlaced(c, place, text) && reason != CommentNotAllowed
    ensures OnlyLogs(c, Report(c, reason), 1, reason, place, text) && IsPlaced(Report(c, reason), place, text)
  {
    hide Stands, Stream, Logged;
    ReportIsLogged(c, reason, place, text);
    assert seq(1, _ => Fault(reason, place)) == [Fault(reason, place)];
  }

  lemma {:induction false} RunDepth(c: Context, rules: Rules, v: Value, depth: nat, place: Place, text: bytes)
    requires IsPlaced(c, place, text)
    ensures OnlyLogs(c, CheckDepth(c, rules, v, depth), CountDeep(v, depth, rules.maxDepth), TooDeep, place, text)
    ensures IsPlaced(CheckDepth(c, rules, v, depth), place, text)
    decreases v, 1
  {
    hide Stands, Stream, Logged, Report, OnlyLogs, IsPlaced;
    OnlyLogsNothing(c, TooDeep, place, text);
    if IsContainer(v) {
      ReportOnlyLogs(c, TooDeep, place, text);
      var hit := depth + 1 == rules.maxDepth;
      var d := if hit then Report(c, TooDeep) else c;
      if v.Arr? {
        RunDepthItems(d, rules, v.items, depth + 1, place, text);
        OnlyLogsThen(c, d, CheckItems(d, rules, v.items, depth + 1), if hit then 1 else 0,
                     CountDeepItems(v.items, depth + 1, rules.maxDepth), TooDeep, place, text);
      } else {
        RunDepthMembers(d, rules, v.members, depth + 1, place, text);
        OnlyLogsThen(c, d, CheckMembers(d, rules, v.members, depth + 1), if hit then 1 else 0,
                     CountDeepMembers(v.members, depth + 1, rules.maxDepth), TooDeep, place, text);
      }
    }
  }

  lemma {:induction false} RunDepthItems(
    c: Context, rules: Rules, items: seq<Value>, depth: nat, place: Place, text: bytes)
    requires IsPlaced(c, place, text)
    ensures var n := CountDeepItems(items, depth, rules.maxDepth);
      OnlyLogs(c, CheckItems(c, rules, items, depth), n, TooDeep, place, text)
    ensures IsPlaced(CheckItems(c, rules, items, depth), place, text)
    decreases items, 0
  {
    hide Stands, Stream, Logged, Report, OnlyLogs, IsPlaced;
    OnlyLogsNothing(c, TooDeep, place, text);
    if items != [] {
      var d := CheckDepth(c, rules, items[0], depth);
      RunDepth(c, rules, items[0], depth, place, text);
      RunDepthItems(d, rules, items[1..], depth, place, text);
      OnlyLogsThen(c, d, CheckItems(d, rules, items[1..], depth), CountDeep(items[0], depth, rules.maxDepth),
                   CountDeepItems(items[1..], depth, rules.maxDepth), TooDeep, place, text);
    }
  }

  lemma {:induction false} RunDepthMembers(
    c: Context, rules: Rules, members: seq<Member>, depth: nat, place: Place, text: bytes)
    requires IsPlaced(c, place, text)
    ensures var n := CountDeepMembers(members, depth, rules.maxDepth);
      OnlyLogs(c, CheckMembers(c, rules, members, depth), n, TooDeep, place, text)
    ensures IsPlaced(CheckMembers(c, rules, members, depth), place, text)
    decreases members, 0
  {
    hide Stands, Stream, Logged, Report, OnlyLogs, IsPlaced;
    OnlyLogsNothing(c, TooDeep, place, text);
    if members != [] {
      assert members[0].val < members[0];
      var d := CheckDepth(c, rules, members[0].val, depth);
      RunDepth(c, rules, members[0].val, depth, place, text);
      RunDepthMembers(d, rules, members[1..], depth, place, text);
      OnlyLogsThen(c, d, CheckMembers(d, rules, members[1..], depth), CountDeep(members[0].val, depth, rules.maxDepth),
                   CountDeepMembers(members[1..], depth, rules.maxDepth), TooDeep, place, text);
    }
  }
}
