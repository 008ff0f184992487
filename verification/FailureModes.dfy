/** How the three failure modes of one parse relate, and where its problems are. */
module FailureModes {
  import opened Bytes
  import opened Json
  import opened TokenPatterns
  import opened Tokenizing
  import opened ParserSpec

  /** With the other options equal, the modes accept the same texts and return the same value; where they
      report, collect_all has the problem that fail_immediately throws first, and keeps within its limit. */
  lemma ModesAgree(text: bytes, rules: Rules, limit: nat)
    ensures var fail := Parse(text, Options(FailImmediately, limit, rules));
      var collect := Parse(text, Options(CollectAll, limit, rules));
      var ignore := Parse(text, Options(Ignore, limit, rules));
      && ignore.Returned?
      && (fail.Thrown? <==> collect.Thrown?)
      && (fail.Returned? ==> fail == collect == ignore)
      && (fail.Thrown? ==>
            && |fail.problems| == 1
            && |collect.problems| <= limit && (limit >= 1 ==> collect.problems[..1] == fail.problems)
            && collect.partial == ignore.val)
  {
    hide ParseAll;
  }

  /** A larger limit only adds problems at the end. */
  lemma LimitsNest(text: bytes, rules: Rules, small: nat, large: nat)
    requires small <= large && Parse(text, Options(CollectAll, small, rules)).Thrown?
    ensures var few := Parse(text, Options(CollectAll, small, rules));
      var many := Parse(text, Options(CollectAll, large, rules));
      && many.Thrown? && few.partial == many.partial
      && few.problems <= many.problems && (|few.problems| < small ==> few.problems == many.problems)
  {
    hide ParseAll;
  }

  ghost predicate HasNewProblem(c: Context, d: Context) { |d.log| > |c.log| }

  lemma GrewThen(c: Context, d: Context, e: Context)
    requires (Extends(c, d) && HasNewProblem(d, e)) || (HasNewProblem(c, d) && Extends(d, e))
    ensures HasNewProblem(c, e)
  {
  }

  /** No false return goes unreported: a value that starts with a significant token only fails with a problem.
      (`parse_generic` itself fails silently at the end of the input, and then each of its callers reports.) */
  lemma {:induction false} FailureIsReported(c: Context, rules: Rules)
    requires !Is(c, Whitespace) && !Is(c, Comment) && !ParseAt(c, rules).ok
    ensures HasNewProblem(c, ParseAt(c, rules).c)
    decreases |c.rest|, 1
  {
    hide ArrayLoop, ObjectLoop, ForwardToSeparator, NumberValue, ParseString;
    if Is(c, ArrayBegin) {
      ArrayFailureIsReported(c, rules, [], false);
    } else if Is(c, ObjectBegin) {
      ObjectFailureIsReported(c, rules, [], false);
    } else {
      GrewThen(c, Report(c, InvalidToken), ParseAt(c, rules).c);
    }
  }

  lemma {:induction false} ArrayFailureIsReported(c: Context, rules: Rules, items: seq<Value>, trailing: bool)
    requires !ArrayLoop(c, rules, items, trailing).ok
    ensures HasNewProblem(c, ArrayLoop(c, rules, items, trailing).c)
    decreases |c.rest|, 0
  {
    hide Advance, ParseAt, Extends;
    ExtendsAll();
    var s := Advance(c, rules);
    if !s.ok {
      GrewThen(c, s.c, Report(s.c, UnmatchedArray));
    } else {
      var v := ParseAt(s.c, rules);
      var n := Advance(v.c, rules);
      if !n.ok {
        GrewThen(c, n.c, Report(n.c, UnmatchedArray));
      } else {
        var items := if v.ok then items + [v.val] else items;
        if Is(n.c, Separator) {
          ArrayFailureIsReported(n.c, rules, items, true);
          GrewThen(c, n.c, ArrayLoop(n.c, rules, items, true).c);
        } else {
          var trailing := if v.ok then false else trailing;
          var d := Report(n.c, InvalidArrayEntry);
          ArrayFailureIsReported(d, rules, items, trailing);
          GrewThen(c, d, ArrayLoop(d, rules, items, trailing).c);
        }
      }
    }
  }

  lemma {:induction false} ObjectFailureIsReported(c: Context, rules: Rules, members: seq<Member>, trailing: bool)
    requires !ObjectLoop(c, rules, members, trailing).ok
    ensures HasNewProblem(c, ObjectLoop(c, rules, members, trailing).c)
    decreases |c.rest|, 0
  {
    hide Advance, ObjectField, Extends, ParseKey;
    ExtendsAll();
    var s := Advance(c, rules);
    if !s.ok {
      GrewThen(c, s.c, Report(s.c, EndInsideObject));
    } else {
      var k := ParseKey(s.c, rules);
      var trailing := trailing && !Is(s.c, String);
      FieldFailureIsReported(k.c, rules, members, k.text, trailing);
      GrewThen(c, k.c, ObjectField(k.c, rules, members, k.text, trailing).c);
    }
  }

  lemma {:induction false} FieldFailureIsReported(
    c: Context, rules: Rules, members: seq<Member>, key: bytes, trailing: bool)
    requires !ObjectField(c, rules, members, key, trailing).ok
    ensures HasNewProblem(c, ObjectField(c, rules, members, key, trailing).c)
    decreases |c.rest|, 2
  {
    hide Advance, ObjectLoop, Extends, FieldValue, Find, Put;
    ExtendsAll();
    var v := FieldValue(c, rules);
    if !v.ok {
      ValueFailureIsReported(c, rules);
    } else {
      var n := Advance(if Find(members, key).None? then v.c else Report(v.c, DuplicateKey), rules);
      var members := Put(members, key, v.val);
      if !n.ok {
        GrewThen(c, n.c, Report(n.c, EndInsideObject));
      } else {
        var d := if Is(n.c, Separator) then n.c else Report(n.c, InvalidObjectToken);
        var pending := Is(n.c, Separator) || trailing;
        ObjectFailureIsReported(d, rules, members, pending);
        GrewThen(c, d, ObjectLoop(d, rules, members, pending).c);
      }
    }
  }

  lemma ValueFailureIsReported(c: Context, rules: Rules)
    requires !FieldValue(c, rules).ok
    ensures HasNewProblem(c, FieldValue(c, rules).c)
  {
    hide Advance, ParseGeneric, Extends;
    ExtendsAll();
    var s := Advance(c, rules);
    if !s.ok {
      GrewThen(c, s.c, Report(s.c, MissingDelimiter));
    } else {
      var v := ParseGeneric(if Is(s.c, KeyDelimiter) then s.c else Report(s.c, InvalidDelimiter), rules);
      GrewThen(c, v.c, Report(v.c, IncompleteValue));
    }
  }
}
