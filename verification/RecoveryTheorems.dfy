/** Every run of the parser, on every text, returns and reports what the derivation of the text says. */
module RecoveryTheorems {
  import opened Bytes
  import opened Json
  import opened TokenPatterns
  import opened Tokenizing
  import opened ParserSpec
  import opened Grammar
  import opened Recovery
  import opened RecoveryRuns
  import Positions

  // ---- comments that are not allowed ----------------------------------------------------------------------------

  /** There are no comments, or they are allowed. */
  ghost predicate CommentsAreFine(text: bytes, rules: Rules) {
    rules.comments || Stream(text, false) == Stream(text, true)
  }

  lemma {:induction false} StreamGrows(s: bytes)
    ensures |Stream(s, false)| >= |Stream(s, true)|
    decreases |s|
  {
    hide FirstToken;
    if s != [] {
      StreamGrows(s[|FirstToken(s).text|..]);
    }
  }

  lemma {:induction false} CommentInStream(s: bytes, k: nat)
    requires k < |Lex(s)| && IsPlain(Lex(s)[k], Comment)
    ensures |Stream(s, false)| > |Stream(s, true)|
    decreases |s|
  {
    hide FirstToken;
    LexStep(s);
    var after := s[|FirstToken(s).text|..];
    if k > 0 {
      CommentInStream(after, k - 1);
    } else {
      StreamGrows(after);
    }
  }

  lemma NoCommentProblem(text: bytes, rules: Rules)
    requires CommentsAreFine(text, rules)
    ensures forall p :: p in ParseAll(StartOf(text), rules).c.log ==> p.reason != CommentNotAllowed
  {
    hide ParseAll, Lex, Texts, Stream;
    Positions.ProblemsAreLocated(text, rules);
    forall p | p in ParseAll(StartOf(text), rules).c.log ensures p.reason != CommentNotAllowed {
      if p.reason == CommentNotAllowed {
        var k :| 0 <= k <= |Lex(text)| && Positions.IsLocatedAt(p, text, rules, k);
        CommentInStream(text, k);
      }
    }
  }

  lemma {:induction false} OthersAreAll(log: seq<Problem>)
    requires forall p :: p in log ==> p.reason != CommentNotAllowed
    ensures Others(log) == log
  {
    if log != [] {
      OthersAreAll(log[..|log| - 1]);
      assert log == log[..|log| - 1] + [log[|log| - 1]];
    }
  }

  lemma {:induction false} OthersPrefix(a: seq<Problem>, b: seq<Problem>)
    requires a <= b
    ensures Others(a) <= Others(b)
    decreases |b|
  {
    if |a| < |b| {
      OthersPrefix(a, b[..|b| - 1]);
    } else {
      assert a == b;
    }
  }

  // ---- the theorem ----------------------------------------------------------------------------------------------

  function OwnFaults(n: Node, rest: seq<Token>, rules: Rules): seq<Fault> {
    Faults(n, rules, |rest|) + if IsOk(n) then [] else [Fault(NoInput, AtEnd(Late(n)))]
  }

  /** The context before the checks on the whole text. */
  function Parsed0(text: bytes, rules: Rules): Context {
    var v := ParseGeneric(StartOf(text), rules);
    if v.ok then v.c else Report(v.c, NoInput)
  }

  lemma RunOwn(n: Node, rest: seq<Token>, text: bytes, rules: Rules)
    requires Starts(n, rest, text)
    ensures var (c, d) := (StartOf(text), Parsed0(text, rules));
      && ParseGeneric(c, rules).val == Kept(n, rules)
      && Logged(c, d, OwnFaults(n, rest, rules), text) && Stream(d.rest, true) == rest
      && IsPlaced(d, if IsOk(n) then OnToken(|rest|) else AtEnd(Late(n)), text)
  {
    hide ParseGeneric, Stream, Stands, Others, Logged, IsNode, Tokens, Kept, Faults;
    var c := StartOf(text);
    var v := ParseGeneric(c, rules);
    RunText(n, rest, text, rules);
    var fs := Faults(n, rules, |rest|);
    if IsOk(n) {
      assert fs + [] == fs;
    } else {
      ReportAtEnd(v.c, Late(n), NoInput, text);
      ReportKeeps(v.c, NoInput);
      LoggedThen(c, v.c, Report(v.c, NoInput), fs, [Fault(NoInput, AtEnd(Late(n)))], text);
    }
  }

  lemma LoggedAll(c: Context, d: Context, fs: seq<Fault>, text: bytes)
    requires Others(c.log) == [] && Logged(c, d, fs, text)
    ensures Matches(Others(d.log), fs, text) && |Others(d.log)| == |fs|
  {
    hide Others, IsAtPlace;
    assert Others(d.log)[0..] == Others(d.log);
  }

  /** The value that is kept, and the problems that the value itself has, whatever the rules say about comments. */
  lemma ValueIsKept(n: Node, rest: seq<Token>, text: bytes, rules: Rules)
    requires Starts(n, rest, text)
    ensures var (r, own) := (ParseAll(StartOf(text), rules), OwnFaults(n, rest, rules));
      && r.val == Kept(n, rules)
      && |own| <= |Others(r.c.log)| && Matches(Others(r.c.log)[..|own|], own, text)
  {
    hide ParseGeneric, Stream, Stands, Others, Kept, Faults, Logged, PostParse, Starts, IsPlaced, IsAtPlace;
    var c, d := StartOf(text), Parsed0(text, rules);
    RunOwn(n, rest, text, rules);
    NoProblemsYet(text);
    LoggedAll(c, d, OwnFaults(n, rest, rules), text);
    var r := ParseAll(c, rules);
    assert Extends(d, r.c);
    OthersPrefix(d.log, r.c.log);
    assert Others(r.c.log)[..|Others(d.log)|] == Others(d.log);
  }

  lemma NoProblemsYet(text: bytes)
    ensures Others(StartOf(text).log) == []
  {
  }

  lemma QuietPrefix(c: Context, end: Context)
    requires c.log <= end.log && forall p :: p in end.log ==> p.reason != CommentNotAllowed
    ensures Others(c.log) == c.log
  {
    forall p | p in c.log ensures p.reason != CommentNotAllowed {
      assert p in end.log;
    }
    OthersAreAll(c.log);
  }

  /** The checks of `post_parse`, one after the other. */
  lemma PostSteps(d: Context, rules: Rules, v: Value)
    ensures var (e, g) := (Drained(d, rules), PostParse(d, rules, v));
      var f := Rooted(e, rules, v);
      && g == (if rules.maxDepth > 0 then CheckDepth(f, rules, v, 0) else f)
      && d.log <= e.log <= f.log <= g.log
  {
    hide Drain, CheckDepth;
  }

  lemma RunRoot(e: Context, rules: Rules, v: Value, place: Place, text: bytes)
    requires IsPlaced(e, place, text)
    ensures var n := if e.log == [] && rules.requireDocument && !IsContainer(v) then 1 else 0;
      OnlyLogs(e, Rooted(e, rules, v), n, NotADocument, place, text) && IsPlaced(Rooted(e, rules, v), place, text)
  {
    hide IsPlaced, OnlyLogs, Report;
    ReportOnlyLogs(e, NotADocument, place, text);
    OnlyLogsNothing(e, NotADocument, place, text);
  }

  lemma RunDeep(f: Context, rules: Rules, v: Value, place: Place, text: bytes)
    requires IsPlaced(f, place, text)
    ensures var g := if rules.maxDepth > 0 then CheckDepth(f, rules, v, 0) else f;
      OnlyLogs(f, g, if rules.maxDepth > 0 then CountDeep(v, 0, rules.maxDepth) else 0, TooDeep, place, text)
  {
    hide IsPlaced, OnlyLogs, CheckDepth, CountDeep;
    OnlyLogsNothing(f, TooDeep, place, text);
    if rules.maxDepth > 0 {
      RunDepth(f, rules, v, 0, place, text);
    }
  }

  lemma OnlyLogsLogged(c: Context, d: Context, n: nat, reason: Reason, place: Place, text: bytes)
    requires OnlyLogs(c, d, n, reason, place, text)
    ensures Logged(c, d, seq(n, _ => Fault(reason, place)), text)
  {
  }

  lemma RunDrained(rest: seq<Token>, d: Context, place: Place, rules: Rules, text: bytes)
    requires IsPlaced(d, place, text) && Stream(d.rest, true) == rest && (d.log == [] ==> place.OnToken?)
    ensures var (e, drained) := (Drained(d, rules), d.log == [] && rules.completeParse);
      && Logged(d, e, if drained then RestFaults(rest) else [], text)
      && IsPlaced(e, if drained then AtEnd(0) else place, text)
  {
    hide Drain, Stream, Stands, Logged;
    if d.log == [] && rules.completeParse {
      RunDrain(rest, d, rules, text);
    } else {
      NothingLogged(d, d, text);
    }
  }

  /** The problems of a run are those of the derivation, in order and at their places. */
  lemma ProblemsAreFaults(n: Node, rest: seq<Token>, text: bytes, rules: Rules)
    requires Starts(n, rest, text) && CommentsAreFine(text, rules)
    ensures Matches(ParseAll(StartOf(text), rules).c.log, AllFaults(n, rest, rules), text)
  {
    hide ParseGeneric, Stream, Stands, Others, Kept, Faults, Logged, PostParse, Starts, IsPlaced, IsAtPlace, OnlyLogs;
    hide Drained, Rooted, RestFaults, CountDeep, Parsed0, CommentsAreFine, Matches;
    var c, d, v := StartOf(text), Parsed0(text, rules), Kept(n, rules);
    RunOwn(n, rest, text, rules);
    NoCommentProblem(text, rules);
    NoProblemsYet(text);
    var e := Drained(d, rules);
    var f := Rooted(e, rules, v);
    var g := ParseAll(c, rules).c;
    ParseAllIs(text, rules);
    PostSteps(d, rules, v);
    QuietPrefix(d, g);
    QuietPrefix(e, g);
    QuietPrefix(g, g);
    var own := OwnFaults(n, rest, rules);
    LoggedAll(c, d, own, text);
    var drained := own == [] && rules.completeParse;
    var start := if IsOk(n) then OnToken(|rest|) else AtEnd(Late(n));
    var place := if drained then AtEnd(0) else start;
    RunDrained(rest, d, start, rules, text);
    var behind := if drained then RestFaults(rest) else [];
    LoggedThen(c, d, e, own, behind, text);
    LoggedAll(c, e, own + behind, text);
    RunRoot(e, rules, v, place, text);
    var rootless := own + behind == [] && rules.requireDocument && !IsContainer(v);
    var root := seq(if rootless then 1 else 0, _ => Fault(NotADocument, place));
    OnlyLogsLogged(e, f, |root|, NotADocument, place, text);
    LoggedThen(c, e, f, own + behind, root, text);
    RunDeep(f, rules, v, place, text);
    var deep := if rules.maxDepth > 0 then CountDeep(v, 0, rules.maxDepth) else 0;
    OnlyLogsLogged(f, g, deep, TooDeep, place, text);
    LoggedThen(c, f, g, own + behind + root, seq(deep, _ => Fault(TooDeep, place)), text);
    LoggedAll(c, g, own + behind + root + seq(deep, _ => Fault(TooDeep, place)), text);
    assert root == if rootless then [Fault(NotADocument, place)] else [];
  }

  lemma ParseAllIs(text: bytes, rules: Rules)
    ensures var r, v := ParseAll(StartOf(text), rules), ParseGeneric(StartOf(text), rules);
      r.val == v.val && r.c == PostParse(Parsed0(text, rules), rules, v.val) && r.ok == (r.c.log == [])
  {
    hide ParseGeneric, PostParse;
  }

  lemma MatchesPrefix(ps: seq<Problem>, fs: seq<Fault>, limit: nat, text: bytes)
    requires Matches(ps, fs, text)
    ensures Matches(Prefix(ps, limit), Prefix(fs, limit), text)
  {
    hide IsAtPlace;
  }

  /** What `parse` makes of a text, in each mode. */
  lemma ParseRecovers(n: Node, rest: seq<Token>, text: bytes, opts: Options)
    requires Starts(n, rest, text) && CommentsAreFine(text, opts.rules)
    ensures var (v, fs, r) := (Kept(n, opts.rules), AllFaults(n, rest, opts.rules), Parse(text, opts));
      if fs == [] || opts.failureMode == Ignore then r == Returned(v)
      else if opts.failureMode == CollectAll then
        r.Thrown? && r.partial == v && Matches(r.problems, Prefix(fs, opts.maxFailures), text)
      else r.Thrown? && r.partial == Value.Null && Matches(r.problems, [fs[0]], text)
  {
    hide ParseAll, Kept, AllFaults, IsAtPlace, Starts, CommentsAreFine;
    ValueIsKept(n, rest, text, opts.rules);
    ProblemsAreFaults(n, rest, text, opts.rules);
    MatchesPrefix(ParseAll(StartOf(text), opts.rules).c.log, AllFaults(n, rest, opts.rules), opts.maxFailures, text);
  }

  /** Comments that are not allowed are reported in passing; under `on_error::ignore` they change nothing. */
  lemma IgnoringKeeps(n: Node, rest: seq<Token>, text: bytes, limit: nat, rules: Rules)
    requires Starts(n, rest, text)
    ensures Parse(text, Options(Ignore, limit, rules)) == Returned(Kept(n, rules))
  {
    hide ParseAll, Kept, OwnFaults, IsAtPlace, Starts;
    ValueIsKept(n, rest, text, rules);
  }

  lemma EmptyOwn(text: bytes, rules: Rules)
    requires Stream(text, true) == []
    ensures var d := Parsed0(text, rules);
      && ParseGeneric(StartOf(text), rules).val == Value.Null && d.log != []
      && Logged(StartOf(text), d, [Fault(NoInput, AtEnd(0))], text)
  {
    hide Stream, Stands, Others, Logged, Advance, ParseAt;
    var c := StartOf(text);
    StepToEnd(c, 0, rules, text);
    var s := Advance(c, rules);
    ReportAtEnd(s.c, 0, NoInput, text);
    LoggedFrom(c, s.c, Report(s.c, NoInput), [Fault(NoInput, AtEnd(0))], text);
  }

  lemma EmptyRun(text: bytes, rules: Rules)
    requires Stream(text, true) == [] && CommentsAreFine(text, rules)
    ensures var r := ParseAll(StartOf(text), rules);
      r.val == Value.Null && Matches(r.c.log, [Fault(NoInput, AtEnd(0))], text)
  {
    hide Stream, Others, Logged, PostParse, Matches, CommentsAreFine, ParseGeneric, Parsed0;
    var d := Parsed0(text, rules);
    EmptyOwn(text, rules);
    NoProblemsYet(text);
    LoggedAll(StartOf(text), d, [Fault(NoInput, AtEnd(0))], text);
    NoCommentProblem(text, rules);
    ParseAllIs(text, rules);
    PostSteps(d, rules, Value.Null);
    QuietPrefix(d, ParseAll(StartOf(text), rules).c);
  }

  /** Without a significant token there is no input. */
  lemma EmptyText(text: bytes, opts: Options)
    requires Stream(text, true) == [] && CommentsAreFine(text, opts.rules)
    ensures var r := Parse(text, opts);
      if opts.failureMode == Ignore then r == Returned(Value.Null)
      else
        && r.Thrown? && r.partial == Value.Null
        && (opts.failureMode == FailImmediately || opts.maxFailures > 0 ==>
              Matches(r.problems, [Fault(NoInput, AtEnd(0))], text))
  {
    hide ParseAll, IsAtPlace, CommentsAreFine, Stream;
    EmptyRun(text, opts.rules);
    var log := ParseAll(StartOf(text), opts.rules).c.log;
    assert |log| == 1 && log[..1] == log && [log[0]] == log;
  }

  // ---- repeated keys --------------------------------------------------------------------------------------------

  /** Of the fields with one key, the last one is kept. */
  lemma {:induction false} LastFieldWins(slots: seq<Slot>, rules: Rules, members: seq<Member>, i: nat, k: bytes)
    requires i <= |slots|
    requires i < |slots| ==> IsOk(slots[i].val) && KeyKept(slots[i].key, rules) == k
    requires forall j :: i < j < |slots| ==> IsOk(slots[j].val) ==> KeyKept(slots[j].key, rules) != k
    requires i == |slots| ==> forall j :: 0 <= j < |slots| ==> IsOk(slots[j].val) ==> KeyKept(slots[j].key, rules) != k
    ensures Find(FieldsKept(slots, rules, members), k)
         == if i < |slots| then Some(Kept(slots[i].val, rules)) else Find(members, k)
    decreases |slots|
  {
    hide IsOk, KeyKept, Kept, Find, Put;
    FieldsKeptStep(slots, rules, members);
    if slots != [] {
      var key, v := KeyKept(slots[0].key, rules), Kept(slots[0].val, rules);
      var more := if IsOk(slots[0].val) then Put(members, key, v) else members;
      if IsOk(slots[0].val) {
        FindPut(members, key, v, k);
      }
      if i == 0 {
        LastFieldWins(slots[1..], rules, more, |slots| - 1, k);
      } else {
        LastFieldWins(slots[1..], rules, more, i - 1, k);
      }
    }
  }

  // ---- what recovery costs --------------------------------------------------------------------------------------

  lemma OneEntry(val: Node, after: Option<Token>, closed: bool, rules: Rules)
    requires IsNode(val) && !IsPlain(Tokens(val)[0], ArrayEnd) && EndsWell(Entry(val, after), true, closed)
    ensures var n := Array([Entry(val, after)], closed);
      && IsNode(n) && IsOk(n) == closed
      && Tokens(n) == [OPEN_ARRAY] + Tokens(val) + Opt(after) + (if closed then [CLOSE_ARRAY] else [])
      && Kept(n, rules) == Arr(if IsOk(val) then [Kept(val, rules)] else [])
  {
    hide IsNode, Tokens, Kept, IsOk, EntriesTokens, ItemsKept;
    var e := Entry(val, after);
    var n := Array([e], closed);
    assert [e][1..] == [];
    EntryTokens([e], closed, []);
    ItemsKeptStep([e], rules, []);
    ItemsKeptNothing(rules, [] + if IsOk(val) then [Kept(val, rules)] else []);
    OneEntryNode(e, closed, rules);
    var end := if closed then [CLOSE_ARRAY] else [];
    assert EntriesTokens([], closed) == end by { NoMoreTokensAt(closed); }
    assert EntriesTokens([e], closed) + [] == EntriesTokens([e], closed) && end + [] == end;
    assert [OPEN_ARRAY] + (Tokens(val) + (Opt(after) + end)) == [OPEN_ARRAY] + Tokens(val) + Opt(after) + end;
    assert [] + ItemsKept([e], rules) == ItemsKept([e], rules);
    assert [] + [Kept(val, rules)] == [Kept(val, rules)];
  }

  lemma NoMoreTokensAt(closed: bool)
    ensures EntriesTokens([], closed) == if closed then [CLOSE_ARRAY] else []
  {
  }

  lemma OneEntryNode(e: Entry, closed: bool, rules: Rules)
    requires IsNode(e.val) && !IsPlain(Tokens(e.val)[0], ArrayEnd) && EndsWell(e, true, closed)
    ensures var n := Array([e], closed);
      && IsNode(n) && IsOk(n) == closed && Tokens(n) == [OPEN_ARRAY] + EntriesTokens([e], closed)
      && Kept(n, rules) == Arr(ItemsKept([e], rules))
  {
    hide EntriesTokens, ItemsKept, EndsWell;
  }

  /** After an invalid token the separator is used up, and then the next item takes its place: [?, x] keeps null
      only. */
  lemma InvalidTokenTakesTheNext(bad: Token, x: Token, text: bytes, limit: nat, rules: Rules)
    requires Stream(text, true) == [OPEN_ARRAY, bad, COMMA_TOKEN, x, CLOSE_ARRAY]
    requires !StartsValue(bad) && IsSignificant(bad) && !IsPlain(bad, ArrayEnd) && !IsPlain(x, ArrayEnd)
    ensures Parse(text, Options(Ignore, limit, rules)) == Returned(Arr([Value.Null]))
  {
    hide Stream, Parse, EntriesTokens, ItemsKept;
    var junk := Junk(bad, [], Some(COMMA_TOKEN));
    assert Tokens(junk) == [bad, COMMA_TOKEN];
    OneEntry(junk, Some(x), true, rules);
    IgnoringKeeps(Array([Entry(junk, Some(x))], true), [], text, limit, rules);
  }

  /** Where a comma is missing the next item is dropped: [x y] keeps x only. */
  lemma MissingCommaDropsTheNext(x: Token, y: Token, text: bytes, limit: nat, rules: Rules)
    requires Stream(text, true) == [OPEN_ARRAY, x, y, CLOSE_ARRAY]
    requires IsNode(Scalar(x)) && !IsPlain(y, ArrayEnd) && !IsPlain(y, Separator)
    ensures Parse(text, Options(Ignore, limit, rules)) == Returned(Arr([Kept(Scalar(x), rules)]))
  {
    hide Stream, Parse, Decoded, NumberValue, EntriesTokens, ItemsKept;
    OneEntry(Scalar(x), Some(y), true, rules);
    IgnoringKeeps(Array([Entry(Scalar(x), Some(y))], true), [], text, limit, rules);
  }

  /** An array that is cut off keeps its items, but is itself dropped by the array around it: [[x keeps nothing. */
  lemma CutArrayIsDropped(x: Token, text: bytes, limit: nat, rules: Rules)
    requires Stream(text, true) == [OPEN_ARRAY, OPEN_ARRAY, x] && IsNode(Scalar(x))
    ensures Parse(text, Options(Ignore, limit, rules)) == Returned(Arr([]))
  {
    hide Stream, Parse, Decoded, NumberValue, EntriesTokens, ItemsKept;
    var inner := Array([Entry(Scalar(x), None)], false);
    OneEntry(Scalar(x), None, false, rules);
    OneEntry(inner, None, false, rules);
    IgnoringKeeps(Array([Entry(inner, None)], false), [], text, limit, rules);
  }
}
