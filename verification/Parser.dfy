/** The recursive-descent parser of parse.cpp, with its context, its three failure modes and its recovery.

    An exception is an out-parameter: `thrown` holds the problem that `fail_immediately` throws. */
module Parser {
  import opened Bytes
  import opened Json
  import opened StringCodec
  import opened TokenPatterns
  import opened Tokenizing
  import opened ParserSpec

  /** A problem that was first stays first. */
  lemma FirstProblemStays(c: Context, d: Context)
    requires Extends(c, d) && c.log != []
    ensures d.log != [] && d.log[0] == c.log[0]
  {
  }

  lemma PrefixAppend(log: seq<Problem>, p: Problem, n: nat)
    ensures Prefix(log + [p], n) == if |Prefix(log, n)| < n then Prefix(log, n) + [p] else Prefix(log, n)
  {
  }

  /** What an iteration of `parse_array` passes through. */
  lemma ArraySteps(c: Context, rules: Rules, items: seq<Value>, trailing: bool)
    ensures var end := ArrayLoop(c, rules, items, trailing).c;
      var s := Advance(c, rules);
      && Extends(s.c, end)
      && (s.ok && !Is(s.c, ArrayEnd) ==>
            var v := ParseAt(s.c, rules);
            && Extends(v.c, end) && Extends(Advance(v.c, rules).c, end)
            && |Advance(v.c, rules).c.rest| <= |v.c.rest| <= |s.c.rest| < |c.rest|)
  {
    hide Extends, Advance, ParseAt; ExtendsAll();
  }

  lemma ForwardSteps(c: Context, rules: Rules)
    ensures Extends(Advance(c, rules).c, ForwardToSeparator(c, rules).c)
  {
    hide Extends, Advance; ExtendsAll();
  }

  lemma ObjectSteps(c: Context, rules: Rules, members: seq<Member>, trailing: bool)
    ensures var end := ObjectLoop(c, rules, members, trailing).c;
      var s := Advance(c, rules);
      && Extends(s.c, end)
      && (s.ok && !Is(s.c, ObjectEnd) ==> Extends(ParseKey(s.c, rules).c, end) && |s.c.rest| < |c.rest|)
  {
    hide Extends, Advance, ObjectField, ParseKey; ExtendsAll();
  }

  /** The context in which the value of a field is parsed. */
  function Delimited(c: Context): Context { if Is(c, KeyDelimiter) then c else Report(c, InvalidDelimiter) }

  /** The context in which the next token after a field is read. */
  function Distinct(c: Context, members: seq<Member>, key: bytes): Context {
    if Find(members, key).None? then c else Report(c, DuplicateKey)
  }

  lemma ValueSteps(c: Context, rules: Rules)
    ensures var end := FieldValue(c, rules).c;
      var s := Advance(c, rules);
      && Extends(s.c, end)
      && (s.ok ==>
            && |s.c.rest| < |c.rest|
            && Extends(Delimited(s.c), end) && Extends(ParserSpec.ParseGeneric(Delimited(s.c), rules).c, end))
  {
    hide Extends, Advance, ParserSpec.ParseGeneric; ExtendsAll();
  }

  lemma FieldSteps(c: Context, rules: Rules, members: seq<Member>, key: bytes, trailing: bool)
    ensures var end := ObjectField(c, rules, members, key, trailing).c;
      var v := FieldValue(c, rules);
      && Extends(v.c, end)
      && (v.ok ==>
            var d := Distinct(v.c, members, key);
            && Extends(d, end) && Extends(Advance(d, rules).c, end)
            && |Advance(d, rules).c.rest| <= |v.c.rest| < |c.rest|)
  {
    hide Extends, Advance, FieldValue, ObjectLoop, Find, Put; ExtendsAll();
  }

  lemma FieldEnds(c: Context, rules: Rules, members: seq<Member>, trailing: bool)
    ensures Extends(c, ObjectLoop(c, rules, members, trailing).c)
  {
  }

  lemma GenericSteps(s: Taken, rules: Rules)
    requires s.c.log != []
    ensures s.ok ==> var r := ParseAt(s.c, rules); r.c.log != [] && r.c.log[0] == s.c.log[0]
  {
    FirstProblemStays(s.c, ParseAt(s.c, rules).c);
  }

  /** The token is one of those that are a value by themselves. */
  predicate StartsScalar(c: Context) { Is(c, Boolean) || Is(c, Kind.Null) || Is(c, Number) || Is(c, String) }

  /** The switch of `ParseAt`, case by case. */
  lemma AtCurrent(c: Context, rules: Rules)
    ensures var r := ParseAt(c, rules);
      if Is(c, ArrayBegin) then r == ArrayLoop(c, rules, [], false)
      else if Is(c, ObjectBegin) then r == ObjectLoop(c, rules, [], false)
      else if Is(c, Comment) || Is(c, Whitespace) then r == ParserSpec.ParseGeneric(c, rules)
      else if StartsScalar(c) then
        && r.ok
        && (Is(c, Boolean) ==> r == ParseBoolean(c))
        && (Is(c, Kind.Null) ==> r.val == Value.Null && r.c == CheckToken(c, NULL_TEXT))
        && (Is(c, Number) ==> r == ParseNumber(c, rules))
        && (Is(c, String) ==> var t := ParseString(c, rules); r.val == Str(t.text) && r.c == t.c)
      else
        var s := ParserSpec.ForwardToSeparator(Report(c, InvalidToken), rules);
        r == Parsed(s.ok, Value.Null, s.c)
  {
    hide ArrayLoop, ObjectLoop, ParserSpec.ForwardToSeparator, ParserSpec.ParseGeneric, ParseString, CheckToken;
    hide Extends, NumberValue;
  }

  class ParseContext {
    const input: Tokenizer
    const options: Options
    var line: nat
    var column: nat
    var character: nat
    var successful: bool
    var problems: seq<Problem>
    var complete: bool
    ghost var passed: bytes
    ghost var log: seq<Problem>  // every problem reported, also those over the limit

    ghost function State(): Context
      reads this, input
    {
      Context(input.Rest(), input.current, line, column, character, complete, passed, log)
    }

    /** What holds between any two steps: the recorded problems are the first ones, up to the limit, and
        nothing has been reported in a run that would have thrown. */
    ghost predicate Valid()
      reads this, input
    {
      && input.Valid()
      && (successful <==> log == [])
      && (options.failureMode == FailImmediately ==> log == [])
      && problems == Prefix(log, options.maxFailures)
      && (line > 0 && !complete ==> input.current.Some?)
    }

    /** The run is where the specification says; or it threw, and then the specification's first problem. */
    ghost predicate Reached(expected: Context, thrown: Option<Problem>)
      reads this, input
    {
      match thrown
      case None => Valid() && State() == expected
      case Some(p) => options.failureMode == FailImmediately && expected.log != [] && expected.log[0] == p
    }

    constructor (opts: Options, tokens: Tokenizer)
      requires tokens.Valid()
      ensures Valid() && options == opts && input == tokens
      ensures State() == Context(tokens.Rest(), tokens.current, 0, 1, 0, false, [], [])
    {
      input, options := tokens, opts;
      line, column, character, successful, problems, complete := 0, 1, 0, true, [], false;
      passed, log := [], [];
    }

    method ParseError(reason: Reason) returns (thrown: Option<Problem>)
      requires Valid()
      modifies `successful, `problems, `log
      ensures Reached(Report(old(State()), reason), thrown)
    {
      hide FirstToken, Tiles, Prefix, Tokenizer.Valid, Tokenizer.Rest;
      var problem := Problem(line, column, character, reason);
      if options.failureMode == FailImmediately {
        return Some(problem);
      }
      PrefixAppend(log, problem, options.maxFailures);
      successful := false;
      if |problems| < options.maxFailures {
        problems := problems + [problem];
      }
      log := log + [problem];
      assert State() == Report(old(State()), reason);
      assert log != [];
      return None;
    }

    /** The position part of `next`. */
    method StepOver()
      requires Valid()
      modifies `line, `column, `character, `passed
      ensures State() == Move(old(State())) && line > 0
    {
      hide FirstToken, Tiles, Prefix;
      if !complete && line != 0 {
        var text := input.current.value.text;
        character := character + |text|;
        var i := 0;
        ghost var line0, column0 := line, column;
        while i < |text|
          invariant i <= |text| && line > 0
          invariant LineAfter(line0, text) == LineAfter(line, text[i..])
          invariant ColumnAfter(column0, text) == ColumnAfter(column, text[i..])
          modifies `line, `column
        {
          assert text[i..][1..] == text[i + 1..];
          if EndsLine(text[i]) {
            line, column := line + 1, 1;
          } else {
            column := column + 1;
          }
          i := i + 1;
        }
        assert text[i..] == [];
        passed := passed + text;
        assert State() == Move(old(State()));
      } else {
        line := line + 1;
      }
    }

    method Next() returns (thrown: Option<Problem>, ok: bool)
      requires Valid()
      modifies this, input
      ensures var s := Advance(old(State()), options.rules);
        Reached(s.c, thrown) && (thrown.None? ==> ok == s.ok)
      ensures thrown.None? && ok ==> input.current.Some?
      decreases |input.Rest()|
    {
      hide Move, Extends, FirstToken, Tiles, Prefix;
      StepOver();
      ghost var m := State();
      var more := input.Next();
      if !more {
        complete := true;
        return None, false;
      }
      assert State() == Take(m);
      var token := input.current.value;
      if token.kind == Whitespace && !token.error {
        thrown, ok := Next();
      } else if token.kind == Comment && !token.error {
        if !options.rules.comments {
          thrown := ParseError(CommentNotAllowed);
          if thrown.Some? {
            ghost var d := Report(Take(m), CommentNotAllowed);
            FirstProblemStays(d, Advance(d, options.rules).c);
            return thrown, false;
          }
        }
        thrown, ok := Next();
      } else {
        return None, true;
      }
    }

    method CheckTokenText(expected: bytes) returns (thrown: Option<Problem>)
      requires Valid() && input.current.Some?
      modifies `successful, `problems, `log
      ensures Reached(CheckToken(old(State()), expected), thrown)
    {
      if input.current.value.text != expected {
        thrown := ParseError(TokenMismatch);
      } else {
        thrown := None;
      }
    }

    method ParseBooleanToken() returns (thrown: Option<Problem>, val: Value)
      requires Valid() && Is(State(), Boolean) && input.current.Some?
      modifies `successful, `problems, `log
      ensures var r := ParseBoolean(old(State()));
        Reached(r.c, thrown) && (thrown.None? ==> val == r.val)
    {
      hide CheckToken;
      var text := input.current.value.text;
      LexedBoolean(input.current.value);
      if text[0] == LOWER_T {
        val := Bool(true);
        thrown := CheckTokenText(TRUE_TEXT);
      } else {
        assert text[0] == LOWER_F;  // the default case of the switch is dead
        val := Bool(false);
        thrown := CheckTokenText(FALSE_TEXT);
      }
    }

    method ParseNumberToken() returns (thrown: Option<Problem>, val: Value)
      requires Valid() && input.current.Some?
      modifies `successful, `problems, `log
      ensures var r := ParseNumber(old(State()), options.rules);
        Reached(r.c, thrown) && (thrown.None? ==> val == r.val)
    {
      hide NumberValue;
      var text := input.current.value.text;
      val := NumberValue(text);
      thrown := None;
      if options.rules.strictNumbers && |text| > 1 && text[0] == ZERO {
        thrown := ParseError(Reason.LeadingZero);
      }
    }

    /** `parse_string`: decode the token, or report it and return it as it is. */
    method ParseStringToken() returns (thrown: Option<Problem>, text: bytes)
      requires Valid() && Is(State(), String) && input.current.Some?
      modifies `successful, `problems, `log
      ensures var t := ParseString(old(State()), options.rules);
        Reached(t.c, thrown) && (thrown.None? ==> text == t.text)
    {
      hide Decode, IsEscaped;
      LexedString(input.current.value);
      var token := input.current.value.text;
      var source := token[1..|token| - 1];
      var decoded := StringDecode(options.rules.encoding, source);
      if decoded.Some? {
        return None, decoded.value;
      }
      thrown := ParseError(BadString);
      text := source;
    }

    method ForwardToSeparator() returns (thrown: Option<Problem>, ok: bool)
      requires Valid()
      modifies this, input
      ensures var s := ParserSpec.ForwardToSeparator(old(State()), options.rules);
        Reached(s.c, thrown) && (thrown.None? ==> ok == s.ok)
    {
      hide Advance, Extends, Tokenizer.Valid, Tokenizer.Rest, Prefix;
      ghost var goal := ParserSpec.ForwardToSeparator(State(), options.rules);
      while true
        invariant Valid() && ParserSpec.ForwardToSeparator(State(), options.rules) == goal
        decreases |input.Rest()|
      {
        ghost var s := Advance(State(), options.rules);
        ForwardSteps(State(), options.rules);
        thrown, ok := Next();
        if thrown.Some? {
          FirstProblemStays(s.c, goal.c);
          return thrown, false;
        }
        if !ok {
          return None, false;
        }
        var token := input.current.value;
        if !token.error && token.kind !in {Boolean, Kind.Null, Number, String, Unknown} {
          return None, true;
        }
      }
    }

    /** `parse_array`. */
    method ParseArray() returns (thrown: Option<Problem>, ok: bool, val: Value)
      requires Valid()
      modifies this, input
      ensures var r := ArrayLoop(old(State()), options.rules, [], false);
        Reached(r.c, thrown) && (thrown.None? ==> ok == r.ok && val == r.val)
      decreases |input.Rest()|, 0
    {
      hide Advance, Extends, ParseAt, Tokenizer.Valid, Tokenizer.Rest, Prefix;
      ghost var goal := ArrayLoop(State(), options.rules, [], false);
      var items := [];
      var trailing := false;
      while true
        invariant Valid() && ArrayLoop(State(), options.rules, items, trailing) == goal
        invariant |input.Rest()| <= old(|input.Rest()|)
        decreases |input.Rest()|
      {
        ghost var s := Advance(State(), options.rules);
        ArraySteps(State(), options.rules, items, trailing);
        var more;
        thrown, more := Next();
        if thrown.Some? {
          FirstProblemStays(s.c, goal.c);
          return thrown, false, Value.Null;
        }
        if !more {
          break;
        }
        var token := input.current.value;
        if token.kind == ArrayEnd && !token.error {
          if trailing && !options.rules.allowTrailing {
            thrown := ParseError(TrailingCommaInArray);
          }
          return thrown, true, Arr(items);
        }
        ghost var v := ParseAt(State(), options.rules);
        var item;
        thrown, ok, item := ParseCurrent();
        if thrown.Some? {
          FirstProblemStays(v.c, goal.c);
          return thrown, false, Value.Null;
        }
        if ok {
          items := items + [item];
          trailing := false;
        }
        ghost var n := Advance(State(), options.rules);
        thrown, more := Next();
        if thrown.Some? {
          FirstProblemStays(n.c, goal.c);
          return thrown, false, Value.Null;
        }
        if !more {
          break;
        }
        token := input.current.value;
        if token.kind == ArrayEnd && !token.error {
          return None, true, Arr(items);
        } else if token.kind == Separator && !token.error {
          trailing := true;
        } else {
          ghost var e := Report(State(), InvalidArrayEntry);
          thrown := ParseError(InvalidArrayEntry);
          if thrown.Some? {
            FirstProblemStays(e, goal.c);
            return thrown, false, Value.Null;
          }
        }
      }
      thrown := ParseError(UnmatchedArray);
      return thrown, false, Arr(items);
    }

    /** The switch of `parse_generic`, on the current token. */
    method ParseCurrent() returns (thrown: Option<Problem>, ok: bool, val: Value)
      requires Valid() && input.current.Some?
      modifies this, input
      ensures var r := ParseAt(old(State()), options.rules);
        Reached(r.c, thrown) && (thrown.None? ==> ok == r.ok && val == r.val)
      decreases |input.Rest()|, 1
    {
      hide Extends, ParseAt, ArrayLoop, ObjectLoop, ParserSpec.ForwardToSeparator, ParserSpec.ParseGeneric;
      hide Valid, Reached;
      AtCurrent(State(), options.rules);
      var token := input.current.value;
      if token.error {
        thrown, ok := SkipInvalid();
        return thrown, ok, Value.Null;
      }
      match token.kind {
        case ArrayBegin =>
          thrown, ok, val := ParseArray();
        case ObjectBegin =>
          thrown, ok, val := ParseObject();
        case Comment =>
          thrown, ok, val := ParseGeneric(true);
        case Whitespace =>
          thrown, ok, val := ParseGeneric(true);
        case Boolean =>
          ok := true;
          thrown, val := ParseScalar();
        case Null =>
          ok := true;
          thrown, val := ParseScalar();
        case Number =>
          ok := true;
          thrown, val := ParseScalar();
        case String =>
          ok := true;
          thrown, val := ParseScalar();
        case _ =>
          thrown, ok := SkipInvalid();
          val := Value.Null;
      }
    }

    /** The cases of that switch that take a single token. */
    method ParseScalar() returns (thrown: Option<Problem>, val: Value)
      requires Valid() && input.current.Some? && StartsScalar(State())
      modifies `successful, `problems, `log
      ensures var r := ParseAt(old(State()), options.rules);
        Reached(r.c, thrown) && (thrown.None? ==> r.ok && val == r.val)
    {
      hide Extends, ParseAt, Prefix, Tokenizer.Valid, CheckToken, NumberValue, ParseString, Valid, Reached;
      AtCurrent(State(), options.rules);
      var kind := input.current.value.kind;
      if kind == Boolean {
        thrown, val := ParseBooleanToken();
      } else if kind == Kind.Null {
        val := Value.Null;
        thrown := CheckTokenText(NULL_TEXT);
      } else if kind == Number {
        thrown, val := ParseNumberToken();
      } else {
        var text;
        thrown, text := ParseStringToken();
        val := Str(text);
      }
    }

    /** The default case of `parse_generic`. */
    method SkipInvalid() returns (thrown: Option<Problem>, ok: bool)
      requires Valid()
      modifies this, input
      ensures var s := ParserSpec.ForwardToSeparator(Report(old(State()), InvalidToken), options.rules);
        Reached(s.c, thrown) && (thrown.None? ==> ok == s.ok)
    {
      ghost var c := Report(State(), InvalidToken);
      thrown := ParseError(InvalidToken);
      if thrown.Some? {
        FirstProblemStays(c, ParserSpec.ForwardToSeparator(c, options.rules).c);
        return thrown, false;
      }
      thrown, ok := ForwardToSeparator();
    }

    /** `parse_generic`. */
    method ParseGeneric(advance: bool) returns (thrown: Option<Problem>, ok: bool, val: Value)
      requires Valid() && (!advance ==> input.current.Some?)
      modifies this, input
      ensures var r := if advance then ParserSpec.ParseGeneric(old(State()), options.rules)
                       else ParseAt(old(State()), options.rules);
        Reached(r.c, thrown) && (thrown.None? ==> ok == r.ok && val == r.val)
      decreases |input.Rest()|, if advance then 0 else 2
    {
      hide Extends, Advance, ParseAt, Tokenizer.Valid, Prefix;
      if advance {
        ghost var s := Advance(State(), options.rules);
        thrown, ok := Next();
        if thrown.Some? {
          GenericSteps(s, options.rules);
          return thrown, false, Value.Null;
        }
        if !ok {
          return None, false, Value.Null;
        }
      }
      thrown, ok, val := ParseCurrent();
    }

    /** `parse_object`. */
    method ParseObject() returns (thrown: Option<Problem>, ok: bool, val: Value)
      requires Valid()
      modifies this, input
      ensures var r := ObjectLoop(old(State()), options.rules, [], false);
        Reached(r.c, thrown) && (thrown.None? ==> ok == r.ok && val == r.val)
      decreases |input.Rest()|, 0
    {
      hide Advance, Extends, ObjectField, ParseKey, Tokenizer.Valid, Tokenizer.Rest, Prefix;
      ghost var goal := ObjectLoop(State(), options.rules, [], false);
      var members := [];
      var trailing := false;
      while true
        invariant Valid() && ObjectLoop(State(), options.rules, members, trailing) == goal
        invariant |input.Rest()| <= old(|input.Rest()|)
        decreases |input.Rest()|
      {
        ghost var s := Advance(State(), options.rules);
        ObjectSteps(State(), options.rules, members, trailing);
        var more;
        thrown, more := Next();
        if thrown.Some? {
          FirstProblemStays(s.c, goal.c);
          return thrown, false, Value.Null;
        }
        if !more {
          thrown := ParseError(EndInsideObject);
          return thrown, false, Obj(members);
        }
        var token := input.current.value;
        if token.kind == ObjectEnd && !token.error {
          if trailing && !options.rules.allowTrailing {
            thrown := ParseError(TrailingCommaInObject);
          }
          return thrown, true, Obj(members);
        }
        ghost var k := ParseKey(State(), options.rules);
        if token.kind == String && !token.error {
          trailing := false;
        }
        var key;
        thrown, key := ParseObjectKey();
        if thrown.Some? {
          FirstProblemStays(k.c, goal.c);
          return thrown, false, Value.Null;
        }
        var done;
        thrown, done, ok, members, trailing := ParseField(key, members, trailing);
        if thrown.Some? || done {
          return thrown, ok, Obj(members);
        }
      }
    }

    /** The key of an object entry. */
    method ParseObjectKey() returns (thrown: Option<Problem>, key: bytes)
      requires Valid() && input.current.Some?
      modifies `successful, `problems, `log
      ensures var k := ParseKey(old(State()), options.rules);
        Reached(k.c, thrown) && (thrown.None? ==> key == k.text)
    {
      hide ParseString;
      var token := input.current.value;
      if token.kind == String && !token.error {
        thrown, key := ParseStringToken();
      } else {
        thrown := ParseError(ExpectingKey);
        key := token.text;
      }
    }

    /** The delimiter after a key, and the value. */
    method ParseFieldValue() returns (thrown: Option<Problem>, ok: bool, val: Value)
      requires Valid()
      modifies this, input
      ensures var r := FieldValue(old(State()), options.rules);
        Reached(r.c, thrown) && (thrown.None? ==> ok == r.ok && val == r.val)
      decreases |input.Rest()|, 1
    {
      hide Advance, Extends, ParserSpec.ParseGeneric, Tokenizer.Valid, Tokenizer.Rest, Prefix;
      ghost var goal := FieldValue(State(), options.rules);
      ValueSteps(State(), options.rules);
      val := Value.Null;
      ghost var s := Advance(State(), options.rules);
      thrown, ok := Next();
      if thrown.Some? {
        FirstProblemStays(s.c, goal.c);
        return;
      }
      if !ok {
        thrown := ParseError(MissingDelimiter);
        return;
      }
      var token := input.current.value;
      if token.kind != KeyDelimiter || token.error {
        thrown := ParseError(InvalidDelimiter);
        if thrown.Some? {
          FirstProblemStays(Delimited(s.c), goal.c);
          return;
        }
      }
      ghost var v := ParserSpec.ParseGeneric(Delimited(s.c), options.rules);
      thrown, ok, val := ParseGeneric(true);
      if thrown.Some? {
        FirstProblemStays(v.c, goal.c);
      } else if !ok {
        val := Value.Null;
        thrown := ParseError(IncompleteValue);
      }
    }

    /** The rest of an iteration of `parse_object`; `done` says that the loop returns `ok`. */
    method ParseField(key: bytes, members: seq<Member>, trailing: bool)
      returns (thrown: Option<Problem>, done: bool, ok: bool, updated: seq<Member>, pending: bool)
      requires Valid()
      modifies this, input
      ensures var r := ObjectField(old(State()), options.rules, members, key, trailing);
        match thrown
        case Some(p) => Reached(r.c, thrown)
        case None =>
          if done then Reached(r.c, None) && ok == r.ok && r.val == Obj(updated)
          else Valid() && r == ObjectLoop(State(), options.rules, updated, pending)
      ensures thrown.None? && !done ==> |input.Rest()| < old(|input.Rest()|)
      decreases |input.Rest()|, 2
    {
      hide Advance, Extends, FieldValue, ObjectLoop, Tokenizer.Valid, Tokenizer.Rest, Prefix, Find, Put;
      ghost var goal := ObjectField(State(), options.rules, members, key, trailing);
      FieldSteps(State(), options.rules, members, key, trailing);
      updated, pending, done := members, trailing, true;
      ghost var v := FieldValue(State(), options.rules);
      var val;
      thrown, ok, val := ParseFieldValue();
      if thrown.Some? {
        FirstProblemStays(v.c, goal.c);
        return;
      }
      if !ok {
        return;
      }
      if Find(members, key).Some? {
        thrown := ParseError(DuplicateKey);
        if thrown.Some? {
          FirstProblemStays(Distinct(v.c, members, key), goal.c);
          return;
        }
      }
      updated := Put(members, key, val);
      ghost var n := Advance(Distinct(v.c, members, key), options.rules);
      var more;
      thrown, more := Next();
      if thrown.Some? {
        FirstProblemStays(n.c, goal.c);
        return;
      }
      if !more {
        ok := false;
        thrown := ParseError(EndInsideObject);
        return;
      }
      var token := input.current.value;
      if token.kind == ObjectEnd && !token.error {
        ok := true;
        return;
      }
      done := false;
      if token.kind == Separator && !token.error {
        pending := true;
      } else {
        ghost var e := Report(State(), InvalidObjectToken);
        thrown := ParseError(InvalidObjectToken);
        if thrown.Some? {
          FieldEnds(e, options.rules, updated, trailing);
          FirstProblemStays(e, goal.c);
        }
      }
    }

    /** The first loop of `post_parse`. */
    method DrainInput() returns (thrown: Option<Problem>)
      requires Valid()
      modifies this, input
      ensures Reached(Drain(old(State()), options.rules), thrown)
    {
      hide Advance, Extends, Tokenizer.Valid, Tokenizer.Rest, Prefix;
      ghost var goal := Drain(State(), options.rules);
      while true
        invariant Valid() && Drain(State(), options.rules) == goal
        decreases |input.Rest()|
      {
        ghost var s := Advance(State(), options.rules);
        DrainSteps(State(), options.rules);
        var more;
        thrown, more := Next();
        if thrown.Some? {
          FirstProblemStays(s.c, goal);
          return;
        }
        if !more {
          return;
        }
        var token := input.current.value;
        if token.error || token.kind !in {Whitespace, Comment, Unknown} {
          if !AllNul(token.text) {
            ghost var e := Report(State(), DataAfterEnd);
            thrown := ParseError(DataAfterEnd);
            if thrown.Some? {
              FirstProblemStays(e, goal);
              return;
            }
          }
        }
      }
    }

    /** The checks of `post_parse`. */
    method CheckResult(out: Value) returns (thrown: Option<Problem>)
      requires Valid()
      modifies this, input
      ensures Reached(PostParse(old(State()), options.rules, out), thrown)
    {
      hide Drain, CheckDepth, Extends, Tokenizer.Valid, Tokenizer.Rest, AllNul, Prefix;
      ghost var c, goal := State(), PostParse(State(), options.rules, out);
      FinishSteps(c, options.rules, out);
      thrown := None;
      if successful && options.rules.completeParse {
        thrown := DrainInput();
        if thrown.Some? {
          FirstProblemStays(Drained(c, options.rules), goal);
          return;
        }
      }
      assert Valid() && State() == Drained(c, options.rules);
      if successful && options.rules.requireDocument && !IsContainer(out) {
        thrown := ParseError(NotADocument);
        if thrown.Some? {
          FirstProblemStays(Rooted(Drained(c, options.rules), options.rules, out), goal);
          return;
        }
      }
      assert Valid() && State() == Rooted(Drained(c, options.rules), options.rules, out);
      if options.rules.maxDepth > 0 {
        var checker := new DepthChecker(this);
        thrown := checker.Encode(out);
      }
    }

    /** `post_parse`. */
    method Finish(out: Value) returns (r: Outcome)
      requires Valid()
      modifies this, input
      ensures r == OutcomeOf(Parsed(true, out, PostParse(old(State()), options.rules, out)), options)
    {
      hide PostParse, Extends, Tokenizer.Valid, Tokenizer.Rest, Prefix;
      var thrown := CheckResult(out);
      if thrown.Some? {
        return Thrown([thrown.value], Value.Null);
      }
      if successful || options.failureMode == Ignore {
        return Returned(out);
      } else {
        return Thrown(problems, out);
      }
    }
  }

  lemma DrainSteps(c: Context, rules: Rules)
    ensures var s := Advance(c, rules);
      && Extends(s.c, Drain(c, rules)) && (s.ok ==> |s.c.rest| < |c.rest|)
      && (s.ok && Drain(c, rules) == Drain(Report(s.c, DataAfterEnd), rules) ==>
            Extends(Report(s.c, DataAfterEnd), Drain(c, rules)))
  {
    hide Extends, Advance; ExtendsAll();
  }

  lemma FinishSteps(c: Context, rules: Rules, v: Value)
    ensures var end := PostParse(c, rules, v);
      Extends(Drained(c, rules), end) && Extends(Rooted(Drained(c, rules), rules, v), end)
  {
    hide Extends, Drain, CheckDepth; ExtendsAll();
  }

  /** The encoder that writes nothing and counts how deep the arrays and objects nest. */
  class DepthChecker {
    const context: ParseContext
    var currentDepth: nat

    constructor (c: ParseContext)
      ensures context == c && currentDepth == 0
    {
      context, currentDepth := c, 0;
    }

    method IncreaseDepth() returns (thrown: Option<Problem>)
      requires context.Valid()
      modifies this, context`successful, context`problems, context`log
      ensures currentDepth == old(currentDepth) + 1
      ensures var c := old(context.State());
        context.Reached(if currentDepth == context.options.rules.maxDepth then Report(c, TooDeep) else c, thrown)
    {
      currentDepth := currentDepth + 1;
      thrown := None;
      if currentDepth == context.options.rules.maxDepth {
        thrown := context.ParseError(TooDeep);
      }
    }

    /** `encoder::encode` with these hooks. */
    method Encode(v: Value) returns (thrown: Option<Problem>)
      requires context.Valid()
      modifies this, context`successful, context`problems, context`log
      ensures context.Reached(CheckDepth(old(context.State()), context.options.rules, v, old(currentDepth)), thrown)
      ensures thrown.None? ==> currentDepth == old(currentDepth)
      decreases v
    {
      hide ParseContext.Valid, Extends;
      if !IsContainer(v) {
        return None;
      }
      ghost var goal := CheckDepth(context.State(), context.options.rules, v, currentDepth);
      ghost var c := context.State();
      EncodeSteps(c, context.options.rules, v, currentDepth);
      thrown := IncreaseDepth();
      if thrown.Some? {
        FirstProblemStays(DepthCounted(c, context.options.rules, currentDepth - 1), goal);
        return;
      }
      var i := 0;
      match v {
        case Arr(items) =>
          while i < |items|
            invariant i <= |items| && thrown.None? && context.Valid() && currentDepth == old(currentDepth) + 1
            invariant CheckItems(context.State(), context.options.rules, items[i..], currentDepth) == goal
          {
            ghost var here := context.State();
            assert items[i..][0] == items[i] && items[i..][1..] == items[i + 1..];
            thrown := Encode(items[i]);
            if thrown.Some? {
              FirstProblemStays(CheckDepth(here, context.options.rules, items[i], old(currentDepth) + 1), goal);
              return;
            }
            i := i + 1;
          }
          assert items[i..] == [];
        case Obj(members) =>
          while i < |members|
            invariant i <= |members| && thrown.None? && context.Valid() && currentDepth == old(currentDepth) + 1
            invariant CheckMembers(context.State(), context.options.rules, members[i..], currentDepth) == goal
          {
            ghost var here := context.State();
            assert members[i..][0] == members[i] && members[i..][1..] == members[i + 1..];
            thrown := Encode(members[i].val);
            if thrown.Some? {
              FirstProblemStays(CheckDepth(here, context.options.rules, members[i].val, old(currentDepth) + 1), goal);
              return;
            }
            i := i + 1;
          }
          assert members[i..] == [];
        case _ =>
      }
      currentDepth := currentDepth - 1;
    }
  }

  function DepthCounted(c: Context, rules: Rules, depth: nat): Context {
    if depth + 1 == rules.maxDepth then Report(c, TooDeep) else c
  }

  lemma EncodeSteps(c: Context, rules: Rules, v: Value, depth: nat)
    requires IsContainer(v)
    ensures Extends(DepthCounted(c, rules, depth), CheckDepth(c, rules, v, depth))
  {
  }

  /** `parse`, for a tokenizer that may have been read from before. */
  method Parse(input: Tokenizer, opts: Options) returns (r: Outcome)
    requires input.Valid()
    modifies input
    ensures var c := Context(old(input.Rest()), old(input.current), 0, 1, 0, false, [], []);
      r == OutcomeOf(ParseAll(c, opts.rules), opts)
  {
    hide ParserSpec.ParseGeneric, PostParse, Extends, Tokenizer.Valid, Tokenizer.Rest;
    var context := new ParseContext(opts, input);
    ghost var start := context.State();
    ghost var v := ParserSpec.ParseGeneric(start, opts.rules);
    var thrown, ok, out := context.ParseGeneric(true);
    if thrown.Some? {
      ParseSteps(start, opts.rules);
      return Thrown([thrown.value], Value.Null);
    }
    if !ok {
      thrown := context.ParseError(NoInput);
      if thrown.Some? {
        ParseSteps(start, opts.rules);
        return Thrown([thrown.value], Value.Null);
      }
    }
    r := context.Finish(out);
  }

  /** The first problem of the value is the first of the whole run. */
  lemma ParseSteps(c: Context, rules: Rules)
    ensures var v := ParserSpec.ParseGeneric(c, rules);
      var d := if v.ok then v.c else Report(v.c, NoInput);
      d.log != [] ==> ParseAll(c, rules).c.log != [] && ParseAll(c, rules).c.log[0] == d.log[0]
    ensures var v := ParserSpec.ParseGeneric(c, rules);
      v.c.log != [] ==> ParseAll(c, rules).c.log != [] && ParseAll(c, rules).c.log[0] == v.c.log[0]
  {
    hide ParserSpec.ParseGeneric, PostParse;
  }

  /** `parse` on a text. */
  method ParseText(text: bytes, opts: Options) returns (r: Outcome)
    ensures r == ParserSpec.Parse(text, opts)
  {
    var input := new Tokenizer(text);
    r := Parse(input, opts);
  }
}
