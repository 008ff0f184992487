/** Which texts `path::create` reads, and as what. */
module PathSyntax {
  import opened Bytes
  import opened Integers
  import opened StringCodec
  import opened TokenPatterns
  import opened NumberGrammar
  import opened Tokenizing
  import opened GrammarTheorems
  import opened Paths
  import opened PathText
  import RoundTrip

  /** The text of one step: a dot and an identifier, a string in brackets, or a number in brackets. */
  datatype Spelling = Dotted(name: bytes) | Quoted(body: bytes) | Numbered(form: NumberForm)

  function SpellingText(sp: Spelling): bytes {
    match sp
    case Dotted(name) => Ascii(".") + name
    case Quoted(body) => Ascii("[\"") + body + Ascii("\"]")
    case Numbered(form) => Ascii("[") + FormText(form) + Ascii("]")
  }

  predicate IsIdentifierStart(c: byte) {
    || 'A' as int <= c <= 'Z' as int || 'a' as int <= c <= 'z' as int
    || c == '_' as int || c == '$' as int
  }

  predicate IsIdentifierByte(c: byte) { IsIdentifierStart(c) || '0' as int <= c <= '9' as int }

  /** [A-Za-z_$][A-Za-z0-9_$]* */
  predicate IsIdentifier(name: bytes) {
    name != [] && IsIdentifierStart(name[0]) && forall i :: 0 <= i < |name| ==> IsIdentifierByte(name[i])
  }

  /** Every quote is escaped, and every backslash escapes something. */
  predicate IsClosed(body: bytes) {
    Backslashes(body, |body|) % 2 == 0 && forall i :: 0 <= i < |body| ==> !IsOpenQuote(body, i)
  }

  ghost predicate IsSpelling(sp: Spelling) {
    match sp
    case Dotted(name) => IsIdentifier(name)
    case Quoted(body) => IsClosed(body)
    case Numbered(form) => IsForm(form)
  }

  /** What may follow: anything that does not make an identifier longer. */
  predicate MayFollow(sp: Spelling, rest: bytes) { sp.Dotted? && rest != [] ==> !IsIdentifierByte(rest[0]) }

  /** What the step is, or which error it gives. */
  function StepRead(sp: Spelling): Created {
    match sp
    case Dotted(name) => Created([Key(name)])
    case Quoted(body) => (
      match Decode(Encoding.Utf8, body, 0)
      case Some(key) => Created([Key(key)])
      case None => DecodeError)
    case Numbered(f) =>
      if f.fraction.Some? || f.exponent.Some? || Natural(f.whole) >= TWO_TO_THE_64 then BadIndex
      else
        var n := Natural(f.whole);
        Created([Index(if f.minus && n > 0 then TWO_TO_THE_64 - n else n)])
  }

  // ---- one step -------------------------------------------------------------------------------------------------

  lemma {:induction false} IdentifierEnds(name: bytes, rest: bytes)
    requires forall i :: 0 <= i < |name| ==> IsIdentifierByte(name[i])
    requires rest == [] || !IsIdentifierByte(rest[0])
    ensures SimpleLength(name + rest) == |name|
  {
    if name == [] {
      assert name + rest == rest;
    } else {
      assert (name + rest)[1..] == name[1..] + rest;
      IdentifierEnds(name[1..], rest);
    }
  }

  lemma {:induction false} BackslashesOfPrefix(s: bytes, more: bytes, i: nat)
    requires i <= |s|
    ensures Backslashes(s + more, i) == Backslashes(s, i)
  {
    if i > 0 {
      BackslashesOfPrefix(s, more, i - 1);
    }
  }

  /** A closed body is the contents of a string. */
  lemma ClosedBody(body: bytes, more: bytes)
    requires IsClosed(body)
    ensures StringBody(body + ([QUOTE] + more)) == Span(true, |body| + 1)
  {
    hide StringBody, Backslashes;
    var s := body + ([QUOTE] + more);
    StringEnds(s);
    forall i | 0 <= i <= |body| ensures Backslashes(s, i) == Backslashes(body, i) {
      BackslashesOfPrefix(body, [QUOTE] + more, i);
    }
    assert IsOpenQuote(s, |body|);
    forall i | 0 <= i < |body| ensures !IsOpenQuote(s, i) {
      assert !IsOpenQuote(body, i) && s[i] == body[i];
    }
  }

  lemma TailOfForm(f: NumberForm)
    requires IsForm(f)
    ensures var tail := FractionText(f.fraction) + ExponentText(f.exponent);
      && (f.fraction.None? && f.exponent.None? ==> tail == [])
      && (f.fraction.Some? || f.exponent.Some? ==> tail != [] && !IsDigit(tail[0]))
  {
  }

  /** The text of a number after its sign. */
  lemma UnsignedForm(f: NumberForm)
    requires IsForm(f)
    ensures var (text, tail) := (FormText(f), FractionText(f.fraction) + ExponentText(f.exponent));
      text != [] && (text[0] == MINUS <==> f.minus) && (if f.minus then text[1..] else text) == f.whole + tail
  {
    hide FractionText, ExponentText;
    var tail := FractionText(f.fraction) + ExponentText(f.exponent);
    if f.minus {
      assert FormText(f) == [MINUS] + (f.whole + tail);
    } else {
      assert FormText(f) == f.whole + tail;
    }
  }

  lemma NoCast(text: bytes, i: nat)
    requires var digits := if text != [] && text[0] == MINUS then text[1..] else text;
      i < |digits| && !IsDigit(digits[i])
    ensures LexicalCast(text) == None
  {
    hide Natural;
    var digits := if text != [] && text[0] == MINUS then text[1..] else text;
    assert !HasOnlyDigits(digits);
  }

  lemma CastOfForm(f: NumberForm)
    requires IsForm(f)
    ensures LexicalCast(FormText(f)) ==
      if f.fraction.Some? || f.exponent.Some? || Natural(f.whole) >= TWO_TO_THE_64 then None
      else Some(if f.minus && Natural(f.whole) > 0 then TWO_TO_THE_64 - Natural(f.whole) else Natural(f.whole))
  {
    hide Natural, FormText, FractionText, ExponentText;
    UnsignedForm(f);
    TailOfForm(f);
    var tail := FractionText(f.fraction) + ExponentText(f.exponent);
    var digits := f.whole + tail;
    if f.fraction.Some? || f.exponent.Some? {
      NoCast(FormText(f), |f.whole|);
    } else {
      assert digits == f.whole;
    }
  }

  lemma ReadsDotted(name: bytes, rest: bytes)
    requires IsIdentifier(name) && MayFollow(Dotted(name), rest)
    ensures Create(SpellingText(Dotted(name)) + rest) == Then(StepRead(Dotted(name)), Create(rest))
  {
    hide Create, SimpleLength;
    var s := SpellingText(Dotted(name)) + rest;
    assert s[1..] == name + rest && s[0] == DOT;
    IdentifierEnds(name, rest);
    CreateStep(s);
    assert s[1..|name| + 1] == name && s[|name| + 1..] == rest;
  }

  lemma ReadsQuotedBody(body: bytes, rest: bytes)
    requires IsClosed(body)
    ensures Create(SpellingText(Quoted(body)) + rest) == Then(StepRead(Quoted(body)), Create(rest))
  {
    hide Create, StringBody, Decode, IsClosed, MatchOf;
    var s := SpellingText(Quoted(body)) + rest;
    var after := [QUOTE] + ([RBRACKET] + rest);
    assert s == [LBRACKET] + ([QUOTE] + (body + after));
    assert s[1..] == [QUOTE] + (body + after);
    assert s[1..][1..] == body + after;
    ClosedBody(body, [RBRACKET] + rest);
    RoundTrip.QuoteMatch(s[1..]);
    assert s[|body| + 3] == RBRACKET;
    CreateStep(s);
    assert s[2..|body| + 2] == body && s[|body| + 4..] == rest;
  }

  lemma ReadsNumbered(f: NumberForm, rest: bytes)
    requires IsForm(f)
    ensures Create(SpellingText(Numbered(f)) + rest) == Then(StepRead(Numbered(f)), Create(rest))
  {
    hide Create, MatchOf, FormText, LexicalCast, FirstToken, Natural;
    var text := FormText(f);
    var s := SpellingText(Numbered(f)) + rest;
    assert s[1..] == text + ([RBRACKET] + rest);
    RoundTrip.FormIsToken(f, [RBRACKET] + rest);
    MatchedToken(s[1..], MatchOf(s[1..]));
    RoundTrip.StartsWithDigit(f);
    CastOfForm(f);
    CreateStep(s);
    assert PathMatchOf(s) == Brace(|text| + 2);
    assert s[1] == text[0];
    assert s[1..|text| + 1] == text && s[|text| + 2..] == rest;
  }

  // ---- all texts ------------------------------------------------------------------------------------------------

  /** A step in front of anything is that step, or its error; then comes what the rest gives. */
  lemma SpellingIsRead(sp: Spelling, rest: bytes)
    requires IsSpelling(sp) && MayFollow(sp, rest)
    ensures var (step, more, r) := (StepRead(sp), Create(rest), Create(SpellingText(sp) + rest));
      && (!step.Created? ==> r == step)
      && (step.Created? && !more.Created? ==> r == more)
      && (step.Created? && more.Created? ==> r == Created(step.path + more.path))
  {
    hide Create, SpellingText;
    match sp
    case Dotted(name) => ReadsDotted(name, rest);
    case Quoted(body) => ReadsQuotedBody(body, rest);
    case Numbered(form) => ReadsNumbered(form, rest);
  }

  ghost predicate StartsWithStep(s: bytes) {
    exists sp, rest :: IsSpelling(sp) && MayFollow(sp, rest) && s == SpellingText(sp) + rest
  }

  lemma {:induction false} SimpleIsIdentifier(s: bytes)
    ensures var n := SimpleLength(s);
      && (forall i :: 0 <= i < n ==> IsIdentifierByte(s[i]))
      && (n < |s| ==> !IsIdentifierByte(s[n]))
  {
    if s != [] && IsSimple(s[0]) {
      SimpleIsIdentifier(s[1..]);
      var n := SimpleLength(s);
      assert forall i :: 1 <= i < n ==> s[i] == s[1..][i - 1];
    }
  }

  lemma BodyIsClosed(s: bytes)
    requires StringBody(s).complete
    ensures IsClosed(s[..StringBody(s).length - 1])
  {
    hide StringBody, Backslashes;
    StringEnds(s);
    var n := StringBody(s).length - 1;
    var body := s[..n];
    assert s == body + s[n..];
    forall i | 0 <= i <= n ensures Backslashes(s, i) == Backslashes(body, i) {
      BackslashesOfPrefix(body, s[n..], i);
    }
    forall i | 0 <= i < n ensures !IsOpenQuote(body, i) {
      assert !IsOpenQuote(s, i) && s[i] == body[i];
    }
  }

  /** `sp` is the step that `path_match` finds at the start of the text. */
  ghost predicate IsFound(sp: Spelling, s: bytes)
    requires !PathMatchOf(s).Invalid?
  {
    var rest := s[PathMatchOf(s).length..];
    IsSpelling(sp) && MayFollow(sp, rest) && s == SpellingText(sp) + rest
  }

  lemma DottedIsFound(s: bytes)
    requires PathMatchOf(s).SimpleObject?
    ensures IsFound(Dotted(s[1..PathMatchOf(s).length]), s)
  {
    hide SimpleLength;
    var n := PathMatchOf(s).length;
    var t, name, rest := s[1..], s[1..n], s[n..];
    SimpleIsIdentifier(t);
    SimpleStartCounts(t);
    assert s == [DOT] + name + rest;
    assert rest != [] ==> rest[0] == t[n - 1];
    assert forall i :: 0 <= i < |name| ==> name[i] == t[i];
  }

  lemma QuotedIsFound(s: bytes)
    requires PathMatchOf(s).Brace? && s[1] == QUOTE
    ensures IsFound(Quoted(s[2..][..PathMatchOf(s).length - 4]), s)
  {
    hide MatchOf, StringBody, IsClosed;
    var m := PathMatchOf(s);
    QuotedLength(s, m);
    BodyIsEscaped(s[2..]);
    BodyIsClosed(s[2..]);
    assert s[m.length - 1] == RBRACKET by { ClosingBracket(s); }
    BracedText(s, m.length);
  }

  lemma ClosingBracket(s: bytes)
    requires PathMatchOf(s).Brace?
    ensures s[PathMatchOf(s).length - 1] == RBRACKET
  {
    hide MatchOf;
  }

  lemma NumberedIsFound(s: bytes) returns (sp: Spelling)
    requires PathMatchOf(s).Brace? && s[1] != QUOTE
    ensures IsFound(sp, s)
  {
    hide MatchOf, FormText, FirstToken;
    var n, t := PathMatchOf(s).length, s[1..];
    NumberOrString(t);
    MatchedToken(t, MatchOf(t));
    LexedNumber(FirstToken(t));
    ClosingBracket(s);
    var f :| IsForm(f) && FormText(f) == t[..n - 2];
    assert s == [LBRACKET] + t[..n - 2] + [RBRACKET] + s[n..];
    sp := Numbered(f);
  }

  lemma SimpleStartCounts(s: bytes)
    requires s != [] && IsSimpleStart(s[0])
    ensures SimpleLength(s) >= 1
  {
  }

  lemma NumberOrString(s: bytes)
    requires s != [] && s[0] != QUOTE && MatchOf(s).complete
    ensures MatchOf(s).kind != String
  {
  }

  lemma BracedText(s: bytes, n: nat)
    requires 4 <= n <= |s| && s[0] == LBRACKET && s[1] == QUOTE && s[n - 2] == QUOTE && s[n - 1] == RBRACKET
    ensures s == Ascii("[\"") + s[2..][..n - 4] + Ascii("\"]") + s[n..]
  {
  }

  lemma FoundStarts(sp: Spelling, s: bytes)
    requires !PathMatchOf(s).Invalid? && IsFound(sp, s)
    ensures StartsWithStep(s)
  {
    hide SpellingText, IsSpelling, MayFollow, PathMatchOf;
    var rest := s[PathMatchOf(s).length..];
    assert IsSpelling(sp) && MayFollow(sp, rest);
  }

  lemma MatchedStarts(s: bytes)
    requires s != [] && !PathMatchOf(s).Invalid?
    ensures StartsWithStep(s)
  {
    hide IsFound, StartsWithStep, MatchOf, SimpleLength;
    if PathMatchOf(s).SimpleObject? {
      DottedIsFound(s);
      FoundStarts(Dotted(s[1..PathMatchOf(s).length]), s);
    } else if s[1] == QUOTE {
      QuotedLength(s, PathMatchOf(s));
      QuotedIsFound(s);
      FoundStarts(Quoted(s[2..][..PathMatchOf(s).length - 4]), s);
    } else {
      var sp := NumberedIsFound(s);
      FoundStarts(sp, s);
    }
  }

  /** Where no step starts there is a syntax error. */
  lemma UnspelledIsRefused(s: bytes)
    requires s != [] && !StartsWithStep(s)
    ensures Create(s) == SyntaxError
  {
    hide Create, PathMatchOf, StartsWithStep;
    CreateStep(s);
    if !PathMatchOf(s).Invalid? {
      MatchedStarts(s);
    }
  }

  predicate IsAsciiAlnum(c: byte) {
    'A' as int <= c <= 'Z' as int || 'a' as int <= c <= 'z' as int || '0' as int <= c <= '9' as int
  }

  /** The text that `to_string` writes for a step. */
  lemma StepIsWritten(step: Step)
    ensures match step
      case Index(i) =>
        exists digits :: StepText(step) == Ascii("[") + digits + Ascii("]") && AreDigits(digits)
          && Natural(digits) == i && (digits[0] == '0' as int ==> i == 0)
      case Key(k) =>
        StepText(step) == if k != [] && forall i :: 0 <= i < |k| ==> IsAsciiAlnum(k[i]) then Ascii(".") + k
                          else Ascii("[\"") + k + Ascii("\"]")
  {
    hide Integers.Digits, Natural;
    match step
    case Index(i) =>
      NaturalOfDigits(i);
      NoLeadingZero(i);
      assert StepText(step) == Ascii("[") + Integers.Digits(i) + Ascii("]");
    case Key(k) =>
      assert forall c: byte :: IsAsciiAlnum(c) <==> IsAlnum(c);
      assert IsBare(k) <==> k != [] && forall i :: 0 <= i < |k| ==> IsAsciiAlnum(k[i]);
      assert [LBRACKET, QUOTE] == Ascii("[\"") && [QUOTE, RBRACKET] == Ascii("\"]") && [DOT] == Ascii(".");
  }
}
