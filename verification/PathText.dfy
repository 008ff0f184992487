/** Paths as text: `operator<<` on paths, `path_match` and `path::create`. */
module PathText {
  import opened Bytes
  import opened Integers
  import opened StringCodec
  import opened TokenPatterns
  import opened NumberGrammar
  import opened Paths
  import Utf8
  import Tokenizing
  import RoundTrip

  // ---- writing --------------------------------------------------------------------------------------------------

  /** A key that `stream_path_element` writes after a dot. */
  predicate IsBare(key: bytes) { key != [] && forall i :: 0 <= i < |key| ==> IsAlnum(key[i]) }

  function StepText(step: Step): (r: bytes)
    ensures r != []
  {
    match step
    case Index(i) => [LBRACKET] + Integers.Digits(i) + [RBRACKET]
    case Key(k) => if IsBare(k) then [DOT] + k else [LBRACKET, QUOTE] + k + [QUOTE, RBRACKET]
  }

  /** `to_string(path)`. */
  function PathText(p: Path): bytes {
    if p == [] then [] else StepText(p[0]) + PathText(p[1..])
  }

  /** `operator<<` on a path: the text of one step after the other. */
  method StreamPath(stream: bytes, p: Path) returns (out: bytes)
    ensures out == stream + PathText(p)
  {
    hide StepText;
    out := stream;
    var i := 0;
    assert p[0..] == p;
    while i < |p|
      invariant 0 <= i <= |p|
      invariant out + PathText(p[i..]) == stream + PathText(p)
    {
      assert p[i..][1..] == p[i + 1..];
      var text := StreamPathElement(p[i]);
      assert (out + text) + PathText(p[i + 1..]) == out + PathText(p[i..]);
      out := out + text;
      i := i + 1;
    }
    assert out + [] == out;
  }

  /** `stream_path_element`. */
  method StreamPathElement(elem: Step) returns (text: bytes)
    ensures text == StepText(elem)
  {
    match elem {
      case Index(i) =>
        return [LBRACKET] + Integers.Digits(i) + [RBRACKET];
      case Key(k) =>
        var i := 0;
        while i < |k| && IsAlnum(k[i])
          invariant 0 <= i <= |k|
          invariant forall j :: 0 <= j < i ==> IsAlnum(k[j])
        {
          i := i + 1;
        }
        if k == [] || i < |k| {
          return [LBRACKET, QUOTE] + k + [QUOTE, RBRACKET];
        } else {
          return [DOT] + k;
        }
    }
  }

  // ---- reading --------------------------------------------------------------------------------------------------

  /** What `path_match` finds: a key after a dot, brackets, or nothing; with the length of the match. */
  datatype PathMatch = SimpleObject(length: nat) | Brace(length: nat) | Invalid

  function PathMatchOf(s: bytes): (m: PathMatch)
    ensures m.SimpleObject? ==> 2 <= m.length <= |s| && s[0] == DOT
    ensures m.Brace? ==> 3 <= m.length <= |s| && s[0] == LBRACKET
  {
    if |s| < 2 then Invalid
    else if s[0] == DOT then
      if IsSimpleStart(s[1]) then SimpleObject(SimpleLength(s[1..]) + 1) else Invalid
    else if s[0] == LBRACKET then
      MatchLength(s[1..]);
      var m := MatchOf(s[1..]);
      if !m.complete || |s| == m.length + 1 || s[m.length + 1] != RBRACKET then Invalid
      else if m.kind != String && m.kind != Number then Invalid
      else Brace(m.length + 2)
    else Invalid
  }

  predicate HasOnlyDigits(s: bytes) { forall i :: 0 <= i < |s| ==> IsDigit(s[i]) }

  /** `boost::lexical_cast<size_t>` on a number: digits in range, where a minus sign negates modulo 2^64. */
  function LexicalCast(text: bytes): Option<nat> {
    var minus := text != [] && text[0] == MINUS;
    var digits := if minus then text[1..] else text;
    if digits == [] || !HasOnlyDigits(digits) then None
    else
      var n := Natural(digits);
      if n >= TWO_TO_THE_64 then None else Some(if minus then (TWO_TO_THE_64 - n) % TWO_TO_THE_64 else n)
  }

  /** What `path::create` returns or throws: invalid_argument, decode_error or bad_lexical_cast. */
  datatype Created = Created(path: Path) | SyntaxError | DecodeError | BadIndex

  /** The step that a match stands for. */
  function StepOf(s: bytes, m: PathMatch): Created
    requires m == PathMatchOf(s) && !m.Invalid?
  {
    if m.SimpleObject? then Created([Key(s[1..m.length])])
    else if s[1] == QUOTE then
      QuotedLength(s, m);
      match Decode(Encoding.Utf8, s[2..m.length - 2], 0)
      case Some(k) => Created([Key(k)])
      case None => DecodeError
    else
      match LexicalCast(s[1..m.length - 1])
      case Some(i) => Created([Index(i)])
      case None => BadIndex
  }

  function Then(a: Created, b: Created): Created {
    if !a.Created? then a else if !b.Created? then b else Created(a.path + b.path)
  }

  /** `path::create`: an error surfaces when its turn comes. */
  function Create(s: bytes): Created
    decreases |s|
  {
    if s == [] then Created([])
    else
      var m := PathMatchOf(s);
      if m.Invalid? then SyntaxError else Then(StepOf(s, m), Create(s[m.length..]))
  }

  lemma QuotedLength(s: bytes, m: PathMatch)
    requires m == PathMatchOf(s) && m.Brace? && s[1] == QUOTE
    ensures 4 <= m.length <= |s|
    ensures StringBody(s[2..]) == Span(true, m.length - 3)
    ensures IsEscaped(s[2..m.length - 2])
  {
    var t := s[1..];
    assert t[1..] == s[2..];
    Tokenizing.BodyIsEscaped(s[2..]);
    assert s[2..m.length - 2] == s[2..][..m.length - 4];
  }

  /** `path_match`. */
  method MatchPath(input: bytes) returns (m: PathMatch)
    ensures m == PathMatchOf(input)
  {
    hide SimpleLength, MatchOf;
    if |input| < 2 {
      return Invalid;
    }
    if input[0] == DOT {
      var complete, length := MatchSimpleString(input[1..]);
      return if complete then SimpleObject(length + 1) else Invalid;
    } else if input[0] == LBRACKET {
      var found := AttemptMatch(input[1..]);
      MatchLength(input[1..]);
      if !found.complete || |input| == found.length + 1 || input[found.length + 1] != RBRACKET {
        return Invalid;
      }
      if found.kind != String && found.kind != Number {
        return Invalid;
      }
      return Brace(found.length + 2);
    }
    return Invalid;
  }

  lemma ThenThen(a: Created, b: Created, c: Created)
    ensures Then(a, Then(b, c)) == Then(Then(a, b), c)
  {
    if a.Created? && b.Created? && c.Created? {
      assert a.path + (b.path + c.path) == (a.path + b.path) + c.path;
    }
  }

  /** `path::create`. */
  method CreatePath(specification: bytes) returns (r: Created)
    ensures r == Create(specification)
  {
    hide Create, PathMatchOf, Decode, LexicalCast, IsEscaped;
    var out: Path := [];
    var remaining := specification;
    NothingFirst(Create(specification));
    while remaining != []
      invariant Create(specification) == Then(Created(out), Create(remaining))
      decreases |remaining|
    {
      CreateStep(remaining);
      var m := MatchPath(remaining);
      if m.Invalid? {
        return SyntaxError;
      }
      var step: Step;
      if m.SimpleObject? {
        step := Key(remaining[1..m.length]);
      } else if remaining[1] == QUOTE {
        QuotedLength(remaining, m);
        var key := StringDecode(Encoding.Utf8, remaining[2..m.length - 2]);
        if key.None? {
          return DecodeError;
        }
        step := Key(key.value);
      } else {
        var index := LexicalCast(remaining[1..m.length - 1]);
        if index.None? {
          return BadIndex;
        }
        step := Index(index.value);
      }
      ThenThen(Created(out), Created([step]), Create(remaining[m.length..]));
      out := out + [step];
      remaining := remaining[m.length..];
    }
    CreateStep(remaining);
    assert out + [] == out;
    return Created(out);
  }

  lemma NothingFirst(r: Created)
    ensures Then(Created([]), r) == r
  {
    if r.Created? {
      assert [] + r.path == r.path;
    }
  }

  lemma CreateStep(s: bytes)
    ensures s == [] ==> Create(s) == Created([])
    ensures s != [] && PathMatchOf(s).Invalid? ==> Create(s) == SyntaxError
    ensures s != [] && !PathMatchOf(s).Invalid? ==>
      Create(s) == Then(StepOf(s, PathMatchOf(s)), Create(s[PathMatchOf(s).length..]))
  {
    hide StepOf, PathMatchOf;
  }

  // ---- there and back -------------------------------------------------------------------------------------------

  /** The steps whose text is read back. Inside quotes nothing is escaped, so a quote or a backslash in a key is
      taken for syntax, and only complete UTF-8 sequences get through the decoder. */
  predicate SurvivesText(step: Step) {
    match step
    case Index(_) => true
    case Key(k) =>
      if IsBare(k) then IsAlpha(k[0])
      else QUOTE !in k && BACKSLASH !in k && Utf8.IsComplete(k, 0)
  }

  predicate IsSizeT(step: Step) { step.Index? ==> step.index < TWO_TO_THE_64 }

  /** What may follow a step. */
  predicate StartsStep(rest: bytes) { rest == [] || rest[0] == DOT || rest[0] == LBRACKET }

  lemma {:induction false} SimpleEnds(k: bytes, rest: bytes)
    requires (forall i :: 0 <= i < |k| ==> IsAlnum(k[i])) && StartsStep(rest)
    ensures SimpleLength(k + rest) == |k|
  {
    if k == [] {
      assert k + rest == rest;
    } else {
      assert (k + rest)[1..] == k[1..] + rest;
      SimpleEnds(k[1..], rest);
    }
  }

  lemma ReadsPlain(k: bytes, rest: bytes)
    requires IsBare(k) && StartsStep(rest)
    ensures Create(StepText(Key(k)) + rest) ==
      if IsAlpha(k[0]) then Then(Created([Key(k)]), Create(rest)) else SyntaxError
  {
    hide Create, SimpleLength;
    var s := StepText(Key(k)) + rest;
    SimpleEnds(k, rest);
    assert s[1..] == k + rest;
    CreateStep(s);
    if IsAlpha(k[0]) {
      assert s[1..|k| + 1] == k && s[|k| + 1..] == rest;
    }
  }

  lemma DigitsAreSizeT(i: nat)
    requires i < TWO_TO_THE_64
    ensures LexicalCast(Integers.Digits(i)) == Some(i)
  {
    NaturalOfDigits(i);
  }

  lemma IndexMatch(i: nat, rest: bytes)
    ensures MatchOf(Integers.Digits(i) + ([RBRACKET] + rest)) == Match(true, Number, |Integers.Digits(i)|)
  {
    hide Integers.Digits;
    var digits := Integers.Digits(i);
    var after := [RBRACKET] + rest;
    ReadsDigits(Start, digits, Whole);
    RunExtends(digits, after, Start);
    assert (digits + after)[0] == digits[0];
  }

  lemma ReadsIndex(i: nat, rest: bytes)
    requires i < TWO_TO_THE_64
    ensures Create(StepText(Index(i)) + rest) == Then(Created([Index(i)]), Create(rest))
  {
    hide Create, MatchOf, Integers.Digits, LexicalCast;
    var digits := Integers.Digits(i);
    var s := StepText(Index(i)) + rest;
    assert s[1..] == digits + ([RBRACKET] + rest);
    IndexMatch(i, rest);
    DigitsAreSizeT(i);
    CreateStep(s);
    assert PathMatchOf(s) == Brace(|digits| + 2);
    assert s[1] == digits[0];
    assert s[1..|digits| + 1] == digits && s[|digits| + 2..] == rest;
  }

  // ---- quoted keys ----------------------------------------------------------------------------------------------

  /** Without backslashes the decoder passes bytes on, if the sequences are complete. */
  lemma {:induction false} DecodesAsIs(s: bytes, pending: nat)
    requires BACKSLASH !in s
    ensures Decode(Encoding.Utf8, s, pending) == if Utf8.IsComplete(s, pending) then Some(s) else None
    decreases |s|
  {
    if s != [] {
      assert s[0] in s;
      assert forall c :: c in s[1..] ==> c in s;
      var due := Accept(Encoding.Utf8, s[0], pending);
      if due.Some? {
        DecodesAsIs(s[1..], due.value);
        assert [s[0]] + s[1..] == s;
      }
    }
  }

  function Quotes(s: bytes): nat { if s == [] then 0 else (if s[0] == QUOTE then 1 else 0) + Quotes(s[1..]) }

  lemma {:induction false} QuotesConcat(a: bytes, b: bytes)
    ensures Quotes(a + b) == Quotes(a) + Quotes(b)
  {
    if a == [] {
      assert a + b == b;
    } else {
      assert (a + b)[1..] == a[1..] + b;
      QuotesConcat(a[1..], b);
    }
  }

  /** An escape is longer than what it stands for, and has no more quotes. */
  lemma UnescapedQuotes(s: bytes)
    requires s != [] && s[0] == BACKSLASH && Unescape(Encoding.Utf8, s).Some?
    ensures var e := Unescape(Encoding.Utf8, s).value;
      |e.text| < e.length && Quotes(s[..e.length]) <= Quotes(e.text)
  {
    var e := Unescape(Encoding.Utf8, s).value;
    if e.length == 2 {
      assert e.text[1..] == [] && s[..2][1..] == [s[1]] && [s[1]][1..] == [];
    } else {
      EscapeHasNoQuotes(s, e);
    }
  }

  lemma EscapeHasNoQuotes(s: bytes, e: Escape)
    requires s != [] && s[0] == BACKSLASH && Unescape(Encoding.Utf8, s) == Some(e) && e.length > 2
    ensures Quotes(s[..e.length]) == 0 && |e.text| < e.length
  {
    assert forall i :: 0 <= i < e.length ==> s[i] != QUOTE by {
      assert HexValue(QUOTE).None?;
    }
    NoQuotes(s[..e.length]);
  }

  lemma {:induction false} NoQuotes(s: bytes)
    ensures Quotes(s) == 0 <==> QUOTE !in s
  {
    if s != [] {
      NoQuotes(s[1..]);
      assert s == [s[0]] + s[1..];
    }
  }

  /** Decoding does not lengthen a text and does not lose quotes; a backslash shortens it. */
  lemma {:induction false} DecodeShrinks(s: bytes, pending: nat)
    requires Decode(Encoding.Utf8, s, pending).Some?
    ensures var t := Decode(Encoding.Utf8, s, pending).value;
      && |t| <= |s| && Quotes(s) <= Quotes(t)
      && (BACKSLASH in s ==> |t| < |s|)
    decreases |s|
  {
    hide Unescape;
    if s != [] {
      if pending == 0 && s[0] == BACKSLASH {
        var e := Unescape(Encoding.Utf8, s).value;
        var rest := s[e.length..];
        UnescapedQuotes(s);
        DecodeShrinks(rest, 0);
        assert s == s[..e.length] + rest;
        QuotesConcat(s[..e.length], rest);
        QuotesConcat(e.text, Decode(Encoding.Utf8, rest, 0).value);
      } else {
        var due := Accept(Encoding.Utf8, s[0], pending).value;
        DecodeShrinks(s[1..], due);
        var t := [s[0]] + Decode(Encoding.Utf8, s[1..], due).value;
        assert t[1..] == Decode(Encoding.Utf8, s[1..], due).value;
        assert s[0] != BACKSLASH;
        assert s == [s[0]] + s[1..];
      }
    }
  }

  /** A body without backslashes ends at the first quote. */
  lemma {:induction false} BodyHasNoQuote(s: bytes)
    requires StringBody(s).complete && BACKSLASH !in s[..StringBody(s).length - 1]
    ensures QUOTE !in s[..StringBody(s).length - 1]
  {
    var n := StringBody(s).length;
    if s[0] != QUOTE {
      assert s[..n - 1][0] == s[0];
      assert s[..n - 1] == [s[0]] + s[1..][..n - 2];
      BodyHasNoQuote(s[1..]);
    }
  }

  /** The text after the opening quote of a quoted key. */
  function AfterQuote(k: bytes, rest: bytes): bytes { k + ([QUOTE, RBRACKET] + rest) }

  lemma ReadsQuoted(k: bytes, rest: bytes)
    requires !IsBare(k) && SurvivesText(Key(k))
    ensures Create(StepText(Key(k)) + rest) == Then(Created([Key(k)]), Create(rest))
  {
    hide Create, StringBody, Decode, Utf8.IsComplete;
    var s := StepText(Key(k)) + rest;
    var after := [QUOTE] + ([RBRACKET] + rest);
    assert s[1..] == [QUOTE] + (k + after);
    assert s[1..][1..] == k + after;
    RoundTrip.BodySkips(k, after);
    QuoteEndsBody([RBRACKET] + rest);
    RoundTrip.QuoteMatch(s[1..]);
    assert MatchOf(s[1..]) == Match(true, String, |k| + 2);
    assert s[|k| + 3] == RBRACKET;
    DecodesAsIs(k, 0);
    CreateStep(s);
    assert s[2..|k| + 2] == k && s[|k| + 4..] == rest;
  }

  lemma QuoteEndsBody(rest: bytes)
    ensures StringBody([QUOTE] + rest) == Span(true, 1)
  {
  }

  lemma QuoteCounts(k: bytes, more: bytes)
    ensures Quotes(k + ([QUOTE] + more)) > Quotes(k)
  {
    QuotesConcat(k, [QUOTE] + more);
  }

  /** A decoded body that equals the key is the key. */
  lemma BodyIsKey(k: bytes, rest: bytes)
    requires StringBody(AfterQuote(k, rest)).complete
    requires var n := StringBody(AfterQuote(k, rest)).length;
      n >= 1 && Decode(Encoding.Utf8, AfterQuote(k, rest)[..n - 1], 0) == Some(k)
    ensures QUOTE !in k && BACKSLASH !in k && Utf8.IsComplete(k, 0)
  {
    hide StringBody, Decode, Utf8.IsComplete;
    var s := AfterQuote(k, rest);
    var n := StringBody(s).length;
    var body := s[..n - 1];
    DecodeShrinks(body, 0);
    if |body| > |k| {
      assert body == k + ([QUOTE] + body[|k| + 1..]);
      QuoteCounts(k, body[|k| + 1..]);
    }
    assert body == k;
    DecodesAsIs(k, 0);
    BodyHasNoQuote(s);
  }

  lemma RefusesQuoted(k: bytes, rest: bytes)
    requires !IsBare(k) && !SurvivesText(Key(k))
    ensures var r := Create(StepText(Key(k)) + rest); r.Created? ==> r.path != [] && r.path[0] != Key(k)
  {
    hide Create, Decode, Utf8.IsComplete, MatchOf;
    var s := StepText(Key(k)) + rest;
    CreateStep(s);
    var m := PathMatchOf(s);
    if !m.Invalid? {
      assert m.Brace?;
      assert s[1] == QUOTE;
      QuotedLength(s, m);
      assert s[2..] == AfterQuote(k, rest);
      assert s[2..m.length - 2] == s[2..][..m.length - 4];
      if Decode(Encoding.Utf8, s[2..m.length - 2], 0) == Some(k) {
        BodyIsKey(k, rest);
      }
    }
  }

  lemma StepIsRead(step: Step, rest: bytes)
    requires IsSizeT(step) && StartsStep(rest)
    ensures var r := Create(StepText(step) + rest);
      if SurvivesText(step) then r == Then(Created([step]), Create(rest))
      else r.Created? ==> r.path != [] && r.path[0] != step
  {
    hide Create, StepText;
    if step.Index? {
      ReadsIndex(step.index, rest);
    } else if IsBare(step.key) {
      ReadsPlain(step.key, rest);
    } else if SurvivesText(step) {
      ReadsQuoted(step.key, rest);
    } else {
      RefusesQuoted(step.key, rest);
    }
  }

  /** `path::create(to_string(p)) == p` exactly when every step of `p` reads back. */
  lemma {:induction false} PathRoundTrip(p: Path)
    requires forall i :: 0 <= i < |p| ==> IsSizeT(p[i])
    ensures Create(PathText(p)) == Created(p) <==> forall i :: 0 <= i < |p| ==> SurvivesText(p[i])
  {
    hide Create, SurvivesText;
    if p == [] {
      CreateStep([]);
    } else {
      var rest := PathText(p[1..]);
      TextStartsStep(p[1..]);
      StepIsRead(p[0], rest);
      PathRoundTrip(p[1..]);
      assert [p[0]] + p[1..] == p;
      if SurvivesText(p[0]) {
        HeadAndRest(p, Create(rest));
      }
    }
  }

  lemma HeadAndRest(p: Path, r: Created)
    requires p != []
    ensures Then(Created([p[0]]), r) == Created(p) <==> r == Created(p[1..])
  {
    if r.Created? {
      assert ([p[0]] + r.path)[1..] == r.path;
      assert [p[0]] + p[1..] == p;
    }
  }

  lemma TextStartsStep(p: Path)
    ensures StartsStep(PathText(p))
  {
  }

  /** For example, the text of a key with a quote is refused. */
  lemma QuotedKeyIsRefused(key: bytes)
    requires key == [0x61, QUOTE]
    ensures Create(PathText([Key(key)])) == SyntaxError
  {
    hide StringBody, MatchOf, Create, PathText;
    var s: bytes := [LBRACKET, QUOTE, 0x61, QUOTE, QUOTE, RBRACKET];
    assert !IsAlnum(key[1]);
    AloneIsItsText(Key(key));
    assert PathText([Key(key)]) == s;
    BodyOfShort(s[2..]);
    assert s[1..][1..] == s[2..];
    RoundTrip.QuoteMatch(s[1..]);
    CreateStep(s);
  }

  /** And that of the two bytes \n is read as a line feed. */
  lemma EscapedKeyIsAnother(key: bytes)
    requires key == [BACKSLASH, 0x6E]
    ensures Create(PathText([Key(key)])) == Created([Key([LF])])
  {
    hide StringBody, MatchOf, Create, PathText, Decode;
    var s: bytes := [LBRACKET, QUOTE, BACKSLASH, 0x6E, QUOTE, RBRACKET];
    assert !IsAlnum(key[0]);
    AloneIsItsText(Key(key));
    assert PathText([Key(key)]) == s;
    BodyOfShort(s[2..]);
    assert s[1..][1..] == s[2..];
    RoundTrip.QuoteMatch(s[1..]);
    CreateStep(s);
    CreateStep([]);
    assert PathMatchOf(s) == Brace(6) && s[6..] == [] && s[2..4] == key;
    NewlineIsDecoded(key);
  }

  lemma NewlineIsDecoded(key: bytes)
    requires key == [BACKSLASH, 0x6E]
    ensures Decode(Encoding.Utf8, key, 0) == Some([LF])
  {
    assert key[2..] == [] && Decode(Encoding.Utf8, key[2..], 0) == Some([]);
    assert [LF] + [] == [LF];
  }

  lemma AloneIsItsText(step: Step)
    ensures PathText([step]) == StepText(step)
  {
    assert [step][1..] == [];
  }

  lemma BodyOfShort(s: bytes)
    requires |s| >= 3
    ensures s[0] != QUOTE && s[0] != BACKSLASH && s[1] == QUOTE ==> StringBody(s) == Span(true, 2)
    ensures s[0] == BACKSLASH && s[2] == QUOTE ==> StringBody(s) == Span(true, 3)
  {
  }
}
