/** The hand-written scanners of token_patterns.cpp, and the functions they are proved against. */
module TokenPatterns {
  import opened Bytes

  /** `token_kind` without its error flag; a `Match` that is not complete carries the flag. */
  datatype Kind =
    | Unknown | ArrayBegin | ArrayEnd | Boolean | Null | Number | Separator | String
    | ObjectBegin | KeyDelimiter | ObjectEnd | Whitespace | Comment

  datatype Match = Match(complete: bool, kind: Kind, length: nat)

  /** How far a scanner gets, and whether what it read is a whole token. */
  datatype Span = Span(complete: bool, length: nat)

  function Longer(s: Span, n: nat): Span { Span(s.complete, s.length + n) }

  // ---- literals ------------------------------------------------------------------------------------------------

  function CommonPrefix(s: bytes, literal: bytes): nat {
    if s == [] || literal == [] || s[0] != literal[0] then 0 else 1 + CommonPrefix(s[1..], literal[1..])
  }

  lemma {:induction false} CommonPrefixSpec(s: bytes, literal: bytes)
    ensures CommonPrefix(s, literal) <= |s| && CommonPrefix(s, literal) <= |literal|
    ensures CommonPrefix(s, literal) == |literal| <==> literal <= s
  {
    if s != [] && literal != [] && s[0] == literal[0] {
      CommonPrefixSpec(s[1..], literal[1..]);
      assert literal <= s <==> literal[1..] <= s[1..] by {
        assert s == [s[0]] + s[1..] && literal == [literal[0]] + literal[1..];
      }
    }
  }

  method MatchLiteral(s: bytes, literal: bytes) returns (complete: bool, length: nat)
    ensures length == CommonPrefix(s, literal)
    ensures complete <==> literal <= s
  {
    CommonPrefixSpec(s, literal);
    length := 0;
    while length < |literal|
      invariant length <= |literal| && length <= |s|
      invariant CommonPrefix(s, literal) == length + CommonPrefix(s[length..], literal[length..])
    {
      if length == |s| || s[length] != literal[length] {
        return false, length;
      }
      assert s[length..][1..] == s[length + 1..] && literal[length..][1..] == literal[length + 1..];
      length := length + 1;
    }
    return true, length;
  }

  // ---- numbers -------------------------------------------------------------------------------------------------

  /** The states of a deterministic automaton for -?D+(.D+)?([eE][+-]?D+)?. */
  datatype NumberState = Start | AfterMinus | Whole | AfterPoint | Fraction | AfterMark | AfterSign | Exponent

  predicate IsMark(c: byte) { c == LOWER_E || c == UPPER_E }

  function Delta(state: NumberState, c: byte): Option<NumberState> {
    match state
    case Start => if c == MINUS then Some(AfterMinus) else if IsDigit(c) then Some(Whole) else None
    case AfterMinus => if IsDigit(c) then Some(Whole) else None
    case Whole =>
      if IsDigit(c) then Some(Whole) else if c == DOT then Some(AfterPoint)
      else if IsMark(c) then Some(AfterMark) else None
    case AfterPoint => if IsDigit(c) then Some(Fraction) else None
    case Fraction => if IsDigit(c) then Some(Fraction) else if IsMark(c) then Some(AfterMark) else None
    case AfterMark =>
      if IsDigit(c) then Some(Exponent) else if c == PLUS || c == MINUS then Some(AfterSign) else None
    case AfterSign => if IsDigit(c) then Some(Exponent) else None
    case Exponent => if IsDigit(c) then Some(Exponent) else None
  }

  predicate Accepting(state: NumberState) { state == Whole || state == Fraction || state == Exponent }

  /** How many bytes the automaton reads before it has no move. */
  function RunLength(s: bytes, state: NumberState): (n: nat)
    ensures n <= |s|
  {
    if s == [] || Delta(state, s[0]).None? then 0 else 1 + RunLength(s[1..], Delta(state, s[0]).value)
  }

  function RunState(s: bytes, state: NumberState): NumberState {
    if s == [] || Delta(state, s[0]).None? then state else RunState(s[1..], Delta(state, s[0]).value)
  }

  /** `current()` in `match_number`: a NUL stands for the end of the input. */
  function At(s: bytes, i: nat): byte { if i < |s| then s[i] else 0 }

  ghost predicate RunIs(s: bytes, length: nat, state: NumberState) {
    && length <= |s|
    && RunLength(s, Start) == length + RunLength(s[length..], state)
    && RunState(s, Start) == RunState(s[length..], state)
  }

  lemma RunStep(s: bytes, length: nat, state: NumberState)
    requires RunIs(s, length, state)
    ensures var next := Delta(state, At(s, length));
      if next.Some? then length < |s| && RunIs(s, length + 1, next.value)
      else RunLength(s, Start) == length && RunState(s, Start) == state
  {
    if length < |s| {
      assert s[length..][1..] == s[length + 1..];
    }
  }

  /** `match_number_state`; its leading_zero has the moves of integer. */
  datatype ScanState = Initial | LeadingMinus | LeadingZero | Integer | Decimal | ExponentPart | ExponentSign | Complete

  /** The branches up to the integer digits: an optional minus and the first digit. */
  method MatchNumberStart(s: bytes) returns (state: ScanState, length: nat)
    ensures state == Complete ==> RunLength(s, Start) == length && !Accepting(RunState(s, Start))
    ensures state != Complete ==> (state == LeadingZero || state == Integer) && RunIs(s, length, Whole)
  {
    length := 0;
    RunStep(s, 0, Start);
    var current := At(s, length);
    if current == MINUS {
      length := length + 1;
      RunStep(s, length, AfterMinus);
      current := At(s, length);
    }
    if current == ZERO {
      return LeadingZero, length + 1;
    } else if IsDigit(current) {
      return Integer, length + 1;
    }
    return Complete, length;
  }

  /** `match_number`. */
  method MatchNumber(s: bytes) returns (complete: bool, length: nat)
    ensures length == RunLength(s, Start)
    ensures complete <==> Accepting(RunState(s, Start))
  {
    hide RunLength, RunState, RunIs;
    var state;
    state, length := MatchNumberStart(s);
    if state == Complete {
      return false, length;
    }
    if state == LeadingZero {
      RunStep(s, length, Whole);
      var current := At(s, length);
      if IsDigit(current) {
        length, state := length + 1, Integer;
      } else if current == DOT {
        length, state := length + 1, Decimal;
      } else if IsMark(current) {
        length, state := length + 1, ExponentPart;
      } else {
        state := Complete;
      }
    }
    while state == Integer
      invariant state in {Integer, Decimal, ExponentPart, Complete}
      invariant state == Integer ==> RunIs(s, length, Whole)
      invariant state == Decimal ==> RunIs(s, length, AfterPoint)
      invariant state == ExponentPart ==> RunIs(s, length, AfterMark)
      invariant state == Complete ==> RunLength(s, Start) == length && RunState(s, Start) == Whole
      decreases if state == Integer then 1 else 0, |s| - length
    {
      RunStep(s, length, Whole);
      var current := At(s, length);
      if IsDigit(current) {
        length := length + 1;
      } else if current == DOT {
        length, state := length + 1, Decimal;
      } else if IsMark(current) {
        length, state := length + 1, ExponentPart;
      } else {
        state := Complete;
      }
    }
    if state == Decimal {
      RunStep(s, length, AfterPoint);
      if !IsDigit(At(s, length)) {
        return false, length;
      }
      length := length + 1;
      while state == Decimal
        invariant state in {Decimal, ExponentPart, Complete}
        invariant state == Decimal ==> RunIs(s, length, Fraction)
        invariant state == ExponentPart ==> RunIs(s, length, AfterMark)
        invariant state == Complete ==> RunLength(s, Start) == length && RunState(s, Start) == Fraction
        decreases if state == Decimal then 1 else 0, |s| - length
      {
        RunStep(s, length, Fraction);
        var current := At(s, length);
        if IsDigit(current) {
          length := length + 1;
        } else if IsMark(current) {
          length, state := length + 1, ExponentPart;
        } else {
          state := Complete;
        }
      }
    }
    if state == ExponentPart {
      complete, length := MatchExponent(s, length);
      return;
    }
    assert state == Complete;  // the assertion that closes `match_number`
    return true, length;
  }

  /** The branches after 'e' or 'E'. */
  method MatchExponent(s: bytes, start: nat) returns (complete: bool, length: nat)
    requires RunIs(s, start, AfterMark)
    ensures length == RunLength(s, Start)
    ensures complete <==> Accepting(RunState(s, Start))
  {
    hide RunLength, RunState, RunIs;
    length := start;
    var state := ExponentPart;
    RunStep(s, length, AfterMark);
    var current := At(s, length);
    if IsDigit(current) {
      length := length + 1;
    } else if current == PLUS || current == MINUS {
      length, state := length + 1, ExponentSign;
    } else {
      return false, length;
    }
    if state == ExponentSign {
      RunStep(s, length, AfterSign);
      if !IsDigit(At(s, length)) {
        return false, length;
      }
      length, state := length + 1, ExponentPart;
    }
    while state == ExponentPart
      invariant state in {ExponentPart, Complete}
      invariant state == ExponentPart ==> RunIs(s, length, Exponent)
      invariant state == Complete ==> RunLength(s, Start) == length && RunState(s, Start) == Exponent
      decreases if state == ExponentPart then 1 else 0, |s| - length
    {
      RunStep(s, length, Exponent);
      if IsDigit(At(s, length)) {
        length := length + 1;
      } else {
        state := Complete;
      }
    }
    return true, length;
  }

  // ---- strings -------------------------------------------------------------------------------------------------

  /** What `match_string` reads after the opening quote. */
  function StringBody(s: bytes): (r: Span)
    ensures r.length <= |s|
  {
    if s == [] then Span(false, 0)
    else if s[0] == QUOTE then Span(true, 1)
    else if s[0] == BACKSLASH then
      if |s| == 1 then Span(false, 0) else Longer(StringBody(s[2..]), 2)
    else Longer(StringBody(s[1..]), 1)
  }

  method MatchString(s: bytes) returns (complete: bool, length: nat)
    requires s != [] && s[0] == QUOTE
    ensures Span(complete, length) == Longer(StringBody(s[1..]), 1)
  {
    length := 1;
    while true
      invariant 1 <= length <= |s|
      invariant Longer(StringBody(s[1..]), 1) == Longer(StringBody(s[length..]), length)
      decreases |s| - length
    {
      if length == |s| {
        return false, length;
      }
      if s[length] == QUOTE {
        return true, length + 1;
      } else if s[length] == BACKSLASH {
        if length + 1 == |s| {
          return false, length;
        }
        assert s[length..][2..] == s[length + 2..];
        length := length + 2;
      } else {
        assert s[length..][1..] == s[length + 1..];
        length := length + 1;
      }
    }
  }

  predicate IsSimpleStart(c: byte) { IsAlpha(c) || c == 0x5F || c == 0x24 }

  predicate IsSimple(c: byte) { IsSimpleStart(c) || IsDigit(c) }

  function SimpleLength(s: bytes): (n: nat)
    ensures n <= |s|
  {
    if s == [] || !IsSimple(s[0]) then 0 else 1 + SimpleLength(s[1..])
  }

  /** `match_simple_string`: an identifier in an object path. */
  method MatchSimpleString(s: bytes) returns (complete: bool, length: nat)
    ensures complete <==> s != [] && IsSimpleStart(s[0])
    ensures length == if complete then SimpleLength(s) else 0
  {
    length := 0;
    if !IsSimpleStart(At(s, 0)) {
      return false, 0;
    }
    length := 1;
    while true
      invariant 1 <= length <= |s|
      invariant SimpleLength(s) == length + SimpleLength(s[length..])
      decreases |s| - length
    {
      var c := At(s, length);
      if c == 0 || !IsSimple(c) {
        return true, length;
      }
      assert s[length..][1..] == s[length + 1..];
      length := length + 1;
    }
  }

  // ---- whitespace and comments ---------------------------------------------------------------------------------

  function SpaceLength(s: bytes): (n: nat)
    ensures n <= |s|
  {
    if s == [] || !IsSpace(s[0]) then 0 else 1 + SpaceLength(s[1..])
  }

  method MatchWhitespace(s: bytes) returns (complete: bool, length: nat)
    ensures complete && length == SpaceLength(s)
  {
    length := 0;
    while length < |s|
      invariant length <= |s|
      invariant SpaceLength(s) == length + SpaceLength(s[length..])
    {
      if !IsSpace(s[length]) {
        return true, length;
      }
      assert s[length..][1..] == s[length + 1..];
      length := length + 1;
    }
    return true, length;
  }

  /** What `match_comment` reads after the opening slash and asterisk. */
  function CommentBody(s: bytes, sawAsterisk: bool): (r: Span)
    ensures r.length <= |s|
  {
    if s == [] then Span(false, 0)
    else if s[0] == ASTERISK then Longer(CommentBody(s[1..], true), 1)
    else if sawAsterisk && s[0] == SLASH then Span(true, 1)
    else Longer(CommentBody(s[1..], false), 1)
  }

  function CommentSpan(s: bytes): (r: Span)
    requires s != []
    ensures 1 <= r.length <= |s|
  {
    if |s| == 1 || s[1] != ASTERISK then Span(false, 1) else Longer(CommentBody(s[2..], false), 2)
  }

  method MatchComment(s: bytes) returns (complete: bool, length: nat)
    requires s != [] && s[0] == SLASH
    ensures Span(complete, length) == CommentSpan(s)
  {
    if |s| == 1 {
      return false, 1;
    } else if s[1] == ASTERISK {
      var sawAsterisk := false;
      length := 2;
      while length < |s|
        invariant 2 <= length <= |s|
        invariant CommentSpan(s) == Longer(CommentBody(s[length..], sawAsterisk), length)
      {
        assert s[length..][1..] == s[length + 1..];
        if s[length] == ASTERISK {
          sawAsterisk := true;
        } else if sawAsterisk && s[length] == SLASH {
          return true, length + 1;
        } else {
          sawAsterisk := false;
        }
        length := length + 1;
      }
      return false, length;
    } else {
      return false, 1;
    }
  }

  // ---- dispatch ------------------------------------------------------------------------------------------------

  function LiteralMatch(s: bytes, kind: Kind, literal: bytes): Match {
    Match(literal <= s, kind, CommonPrefix(s, literal))
  }

  function SpanMatch(kind: Kind, span: Span): Match { Match(span.complete, kind, span.length) }

  function MatchOf(s: bytes): Match {
    if s == [] then Match(false, Unknown, 0)
    else
      var c := s[0];
      if c == LBRACKET then Match(true, ArrayBegin, 1)
      else if c == RBRACKET then Match(true, ArrayEnd, 1)
      else if c == LBRACE then Match(true, ObjectBegin, 1)
      else if c == RBRACE then Match(true, ObjectEnd, 1)
      else if c == COLON then Match(true, KeyDelimiter, 1)
      else if c == COMMA then Match(true, Separator, 1)
      else if c == LOWER_T then LiteralMatch(s, Boolean, TRUE_TEXT)
      else if c == LOWER_F then LiteralMatch(s, Boolean, FALSE_TEXT)
      else if c == LOWER_N then LiteralMatch(s, Null, NULL_TEXT)
      else if c == MINUS || IsDigit(c) then Match(Accepting(RunState(s, Start)), Number, RunLength(s, Start))
      else if c == QUOTE then SpanMatch(String, Longer(StringBody(s[1..]), 1))
      else if IsSpace(c) then Match(true, Whitespace, SpaceLength(s))
      else if c == SLASH then SpanMatch(Comment, CommentSpan(s))
      else Match(false, Unknown, 1)
  }

  /** Every token takes at least one byte and no more than there are. */
  lemma MatchLength(s: bytes)
    requires s != []
    ensures 1 <= MatchOf(s).length <= |s|
  {
    CommonPrefixSpec(s, TRUE_TEXT);
    CommonPrefixSpec(s, FALSE_TEXT);
    CommonPrefixSpec(s, NULL_TEXT);
  }

  /** `attempt_match`. */
  method AttemptMatch(s: bytes) returns (m: Match)
    ensures m == MatchOf(s)
  {
    if s == [] {
      return Match(false, Unknown, 0);
    }
    var c := s[0];
    var complete, length;
    if c == LBRACKET {
      return Match(true, ArrayBegin, 1);
    } else if c == RBRACKET {
      return Match(true, ArrayEnd, 1);
    } else if c == LBRACE {
      return Match(true, ObjectBegin, 1);
    } else if c == RBRACE {
      return Match(true, ObjectEnd, 1);
    } else if c == COLON {
      return Match(true, KeyDelimiter, 1);
    } else if c == COMMA {
      return Match(true, Separator, 1);
    } else if c == LOWER_T {
      complete, length := MatchLiteral(s, TRUE_TEXT);
      return Match(complete, Boolean, length);
    } else if c == LOWER_F {
      complete, length := MatchLiteral(s, FALSE_TEXT);
      return Match(complete, Boolean, length);
    } else if c == LOWER_N {
      complete, length := MatchLiteral(s, NULL_TEXT);
      return Match(complete, Null, length);
    } else if c == MINUS || IsDigit(c) {
      complete, length := MatchNumber(s);
      return Match(complete, Number, length);
    } else if c == QUOTE {
      complete, length := MatchString(s);
      return Match(complete, String, length);
    } else if IsSpace(c) {
      complete, length := MatchWhitespace(s);
      return Match(complete, Whitespace, length);
    } else if c == SLASH {
      complete, length := MatchComment(s);
      return Match(complete, Comment, length);
    } else {
      return Match(false, Unknown, 1);
    }
  }

  // ---- where strings and comments end ---------------------------------------------------------------------------

  /** The number of backslashes directly before a position. */
  function Backslashes(s: bytes, i: nat): nat
    requires i <= |s|
  {
    if i == 0 || s[i - 1] != BACKSLASH then 0 else 1 + Backslashes(s, i - 1)
  }

  /** A quote that no backslash escapes. */
  predicate IsOpenQuote(s: bytes, i: nat)
    requires i < |s|
  {
    s[i] == QUOTE && Backslashes(s, i) % 2 == 0
  }

  lemma {:induction false} BackslashesAfterOther(s: bytes, i: nat)
    requires 1 <= i <= |s| && s[0] != BACKSLASH
    ensures Backslashes(s, i) == Backslashes(s[1..], i - 1)
  {
    if i > 1 {
      assert s[i - 1] == s[1..][i - 2];
      BackslashesAfterOther(s, i - 1);
    }
  }

  lemma {:induction false} BackslashesAfterEscape(s: bytes, i: nat)
    requires 2 <= i <= |s| && s[0] == BACKSLASH
    ensures Backslashes(s, i) % 2 == Backslashes(s[2..], i - 2) % 2
  {
    if i > 2 {
      assert s[i - 1] == s[2..][i - 3];
      BackslashesAfterEscape(s, i - 1);
    } else {
      assert Backslashes(s, 1) == 1;
    }
  }

  /** Past what is no quote, or past an escape, the same quotes are open. */
  lemma OpenQuotesAfter(s: bytes, k: nat, i: nat)
    requires i < |s| && s[0] != QUOTE && k == if s[0] == BACKSLASH then 2 else 1
    ensures IsOpenQuote(s, i) <==> i >= k && IsOpenQuote(s[k..], i - k)
  {
    if i >= k {
      assert s[i] == s[k..][i - k];
      if k == 1 {
        BackslashesAfterOther(s, i);
      } else {
        BackslashesAfterEscape(s, i);
      }
    } else if i == 1 {
      assert Backslashes(s, 1) == 1 + Backslashes(s, 0);
    }
  }

  /** A string ends at its first quote that is not escaped. If there is none, all of the text is read but for a last
      backslash that escapes nothing. */
  lemma {:induction false} StringEnds(s: bytes)
    ensures var (complete, n) := (StringBody(s).complete, StringBody(s).length);
      if complete then n >= 1 && IsOpenQuote(s, n - 1) && forall i :: 0 <= i < n - 1 ==> !IsOpenQuote(s, i)
      else n == |s| - Backslashes(s, |s|) % 2 && forall i :: 0 <= i < |s| ==> !IsOpenQuote(s, i)
  {
    hide IsOpenQuote, Backslashes;
    if s == [] || s[0] == QUOTE || (s[0] == BACKSLASH && |s| == 1) {
      ShortStringEnds(s);
    } else {
      var k := if s[0] == BACKSLASH then 2 else 1;
      StringEnds(s[k..]);
      forall i | 0 <= i < |s| ensures IsOpenQuote(s, i) <==> i >= k && IsOpenQuote(s[k..], i - k) {
        OpenQuotesAfter(s, k, i);
      }
      if k == 1 {
        BackslashesAfterOther(s, |s|);
      } else {
        BackslashesAfterEscape(s, |s|);
      }
    }
  }

  lemma ShortStringEnds(s: bytes)
    ensures s == [] ==> Backslashes(s, |s|) == 0
    ensures s != [] && s[0] == QUOTE ==> IsOpenQuote(s, 0)
    ensures s == [BACKSLASH] ==> Backslashes(s, |s|) == 1 && !IsOpenQuote(s, 0)
  {
    assert s == [BACKSLASH] ==> Backslashes(s, 1) == 1 + Backslashes(s, 0);
  }

  /** An asterisk and a slash. */
  predicate IsCommentEnd(s: bytes, i: nat) { i + 1 < |s| && s[i] == ASTERISK && s[i + 1] == SLASH }

  lemma {:induction false} CommentBodyEnds(s: bytes)
    ensures var (complete, n) := (CommentBody(s, false).complete, CommentBody(s, false).length);
      if complete then n >= 2 && IsCommentEnd(s, n - 2) && forall i :: 0 <= i < n - 2 ==> !IsCommentEnd(s, i)
      else n == |s| && forall i :: 0 <= i < |s| ==> !IsCommentEnd(s, i)
    ensures s != [] && s[0] != SLASH ==> CommentBody(s, true) == CommentBody(s, false)
    ensures s != [] && s[0] == SLASH ==> CommentBody(s, true) == Span(true, 1)
    ensures s == [] ==> CommentBody(s, true) == Span(false, 0)
  {
    if s != [] {
      CommentBodyEnds(s[1..]);
      assert forall i :: 1 <= i < |s| ==> (IsCommentEnd(s, i) <==> IsCommentEnd(s[1..], i - 1));
    }
  }

  /** A comment ends at the first asterisk and slash after the ones that open it. */
  lemma CommentEnds(s: bytes)
    requires |s| >= 2 && s[0] == SLASH && s[1] == ASTERISK
    ensures var (complete, n) := (CommentSpan(s).complete, CommentSpan(s).length);
      if complete then n >= 4 && IsCommentEnd(s, n - 2) && forall i :: 2 <= i < n - 2 ==> !IsCommentEnd(s, i)
      else n == |s| && forall i :: 2 <= i < |s| ==> !IsCommentEnd(s, i)
  {
    CommentBodyEnds(s[2..]);
    assert forall i :: 2 <= i < |s| ==> (IsCommentEnd(s, i) <==> IsCommentEnd(s[2..], i - 2));
  }
}
