/** What the recursive-descent parser of parse.cpp does, as functions on values.

    The functions never stop at a problem: they keep the list of all problems a run would report, in order, as
    if it collected without bound. The three failure modes only differ in what they make of that list. */
module ParserSpec {
  import opened Bytes
  import opened Json
  import opened Integers
  import opened StringCodec
  import opened TokenPatterns
  import opened Tokenizing

  /** `parse_options::on_error`. */
  datatype FailureMode = FailImmediately | CollectAll | Ignore

  /** The options that say which texts are accepted. */
  datatype Rules = Rules(
    encoding: Encoding,
    strictNumbers: bool,
    allowTrailing: bool,
    maxDepth: nat,
    requireDocument: bool,
    completeParse: bool,
    comments: bool)

  /** `parse_options`. */
  datatype Options = Options(failureMode: FailureMode, maxFailures: nat, rules: Rules)

  const DEFAULT_OPTIONS := Options(FailImmediately, 10, Rules(Encoding.Utf8, false, true, 0, false, true, true))
  const STRICT_OPTIONS := Options(FailImmediately, 10, Rules(Utf8Strict, true, false, 20, true, true, false))

  datatype Reason =
    | CommentNotAllowed | TokenMismatch | LeadingZero | BadString
    | TrailingCommaInArray | InvalidArrayEntry | UnmatchedArray
    | TrailingCommaInObject | ExpectingKey | MissingDelimiter | InvalidDelimiter | IncompleteValue
    | DuplicateKey | InvalidObjectToken | EndInsideObject
    | InvalidToken | NoInput | DataAfterEnd | NotADocument | TooDeep

  /** `parse_error::problem`, with the reason in place of the message text. */
  datatype Problem = Problem(line: nat, column: nat, character: nat, reason: Reason)

  /** The state of `parse_context` and of the tokenizer it reads: `rest` is the text after the current token
      and `passed` the text of the tokens before it, counted from the context's first token. */
  datatype Context = Context(
    rest: bytes,
    current: Option<Token>,
    line: nat,
    column: nat,
    character: nat,
    complete: bool,
    passed: bytes,
    log: seq<Problem>)

  function Current(c: Context): Token { if c.current.Some? then c.current.value else Token([], Unknown, false) }

  /** `current_kind() == kind`: a token with the error flag is of no plain kind. */
  predicate Is(c: Context, kind: Kind) { Current(c).kind == kind && !Current(c).error }

  function Report(c: Context, reason: Reason): Context {
    c.(log := c.log + [Problem(c.line, c.column, c.character, reason)])
  }

  predicate EndsLine(c: byte) { c == LF || c == CR }

  function LineAfter(line: nat, text: bytes): nat
    decreases |text|
  {
    if text == [] then line else LineAfter(if EndsLine(text[0]) then line + 1 else line, text[1..])
  }

  function ColumnAfter(column: nat, text: bytes): nat
    decreases |text|
  {
    if text == [] then column else ColumnAfter(if EndsLine(text[0]) then 1 else column + 1, text[1..])
  }

  /** The position part of `next`: step over the current token. */
  function Move(c: Context): Context {
    if !c.complete && c.line != 0 then
      var text := Current(c).text;
      c.(character := c.character + |text|,
         line := LineAfter(c.line, text),
         column := ColumnAfter(c.column, text),
         passed := c.passed + text)
    else
      c.(line := c.line + 1)
  }

  /** The later context has consumed no less and forgotten no problem. */
  ghost predicate Extends(c: Context, d: Context) { |d.rest| <= |c.rest| && c.log <= d.log }

  lemma ExtendsAll()
    ensures forall c, d, e {:trigger Extends(c, d), Extends(d, e)} ::
      Extends(c, d) && Extends(d, e) ==> Extends(c, e)
    ensures forall c, reason :: Extends(c, Report(c, reason))
    ensures forall c :: Extends(c, c)
    ensures forall c, d {:trigger Extends(c, d)} :: Extends(c, d) ==> |d.rest| <= |c.rest|
  {
  }

  datatype Taken = Taken(ok: bool, c: Context)

  /** The text after the first token of `c`. */
  function Take(c: Context): (d: Context)
    requires c.rest != []
    ensures |d.rest| < |c.rest| && d.log == c.log
  {
    var t := FirstToken(c.rest);
    c.(rest := c.rest[|t.text|..], current := Some(t))
  }

  /** `next`. */
  function Advance(c: Context, rules: Rules): (s: Taken)
    ensures Extends(c, s.c) && (s.ok ==> |s.c.rest| < |c.rest|)
    decreases |c.rest|
  {
    var m := Move(c);
    if m.rest == [] then Taken(false, m.(complete := true))
    else
      var d := Take(m);
      if Is(d, Whitespace) then Advance(d, rules)
      else if Is(d, Comment) then Advance(if rules.comments then d else Report(d, CommentNotAllowed), rules)
      else Taken(true, d)
  }

  datatype Parsed = Parsed(ok: bool, val: Value, c: Context)

  function CheckToken(c: Context, expected: bytes): Context {
    if Current(c).text == expected then c else Report(c, TokenMismatch)
  }

  function ParseBoolean(c: Context): (r: Parsed)
    ensures Extends(c, r.c)
  {
    var yes := At(Current(c).text, 0) == LOWER_T;
    Parsed(true, Bool(yes), CheckToken(c, if yes then TRUE_TEXT else FALSE_TEXT))
  }

  predicate IsDecimalLike(text: bytes) { exists i :: 0 <= i < |text| && (text[i] == DOT || IsMark(text[i])) }

  function NumberValue(text: bytes): Value {
    if IsDecimalLike(text) then Value.Decimal(Read(text)) else Int(ToSigned(Strtoul(text)))
  }

  predicate HasLeadingZero(text: bytes) { |text| > 1 && text[0] == ZERO }

  function ParseNumber(c: Context, rules: Rules): (r: Parsed)
    ensures Extends(c, r.c)
  {
    var text := Current(c).text;
    Parsed(true, NumberValue(text),
           if rules.strictNumbers && HasLeadingZero(text) then Report(c, Reason.LeadingZero) else c)
  }

  /** A token's text without its first and last byte. */
  function Inner(text: bytes): bytes { if |text| >= 2 then text[1..|text| - 1] else [] }

  datatype Word = Word(text: bytes, c: Context)

  function ParseString(c: Context, rules: Rules): (t: Word)
    ensures Extends(c, t.c) && t.c.rest == c.rest
  {
    var source := Inner(Current(c).text);
    match Decode(rules.encoding, source, 0)
    case Some(s) => Word(s, c)
    case None => Word(source, Report(c, BadString))
  }

  predicate StopsForwarding(c: Context) {
    !Current(c).error && Current(c).kind !in {Boolean, Kind.Null, Number, String, Unknown}
  }

  function ForwardToSeparator(c: Context, rules: Rules): (s: Taken)
    ensures Extends(c, s.c)
    decreases |c.rest|
  {
    var s := Advance(c, rules);
    if !s.ok || StopsForwarding(s.c) then s else ForwardToSeparator(s.c, rules)
  }

  function TrailingComma(c: Context, rules: Rules, trailing: bool, reason: Reason): Context {
    if trailing && !rules.allowTrailing then Report(c, reason) else c
  }

  /** `parse_generic(context, out, false)`: parse the value that starts with the current token. */
  function ParseAt(c: Context, rules: Rules): (r: Parsed)
    ensures Extends(c, r.c)
    decreases |c.rest|, 1
  {
    hide Extends, Advance, NumberValue, Decode; ExtendsAll();
    if Is(c, ArrayBegin) then ArrayLoop(c, rules, [], false)
    else if Is(c, Boolean) then ParseBoolean(c)
    else if Is(c, Kind.Null) then Parsed(true, Value.Null, CheckToken(c, NULL_TEXT))
    else if Is(c, Number) then ParseNumber(c, rules)
    else if Is(c, ObjectBegin) then ObjectLoop(c, rules, [], false)
    else if Is(c, String) then var s := ParseString(c, rules); Parsed(true, Str(s.text), s.c)
    else if Is(c, Comment) || Is(c, Whitespace) then ParseGeneric(c, rules)
    else var s := ForwardToSeparator(Report(c, InvalidToken), rules); Parsed(s.ok, Value.Null, s.c)
  }

  /** `parse_generic(context, out)`. */
  function ParseGeneric(c: Context, rules: Rules): (r: Parsed)
    ensures Extends(c, r.c)
    decreases |c.rest|, 0
  {
    var s := Advance(c, rules);
    if s.ok then ParseAt(s.c, rules) else Parsed(false, Value.Null, s.c)
  }

  /** The loop of `parse_array`. */
  function ArrayLoop(c: Context, rules: Rules, items: seq<Value>, trailing: bool): (r: Parsed)
    ensures Extends(c, r.c)
    decreases |c.rest|, 0
  {
    hide Extends, Advance; ExtendsAll();
    var s := Advance(c, rules);
    if !s.ok then Parsed(false, Arr(items), Report(s.c, UnmatchedArray))
    else if Is(s.c, ArrayEnd) then Parsed(true, Arr(items), TrailingComma(s.c, rules, trailing, TrailingCommaInArray))
    else
      var v := ParseAt(s.c, rules);
      var items := if v.ok then items + [v.val] else items;
      var trailing := if v.ok then false else trailing;
      var n := Advance(v.c, rules);
      if !n.ok then Parsed(false, Arr(items), Report(n.c, UnmatchedArray))
      else if Is(n.c, ArrayEnd) then Parsed(true, Arr(items), n.c)
      else if Is(n.c, Separator) then ArrayLoop(n.c, rules, items, true)
      else ArrayLoop(Report(n.c, InvalidArrayEntry), rules, items, trailing)
  }

  /** The key at the current token; anything but a string is reported and its text stands in for a key. */
  function ParseKey(c: Context, rules: Rules): (k: Word)
    ensures Extends(c, k.c) && k.c.rest == c.rest
  {
    if Is(c, String) then ParseString(c, rules) else Word(Current(c).text, Report(c, ExpectingKey))
  }

  /** The loop of `parse_object`. */
  function ObjectLoop(c: Context, rules: Rules, members: seq<Member>, trailing: bool): (r: Parsed)
    ensures Extends(c, r.c)
    decreases |c.rest|, 0
  {
    hide Extends, Advance; ExtendsAll();
    var s := Advance(c, rules);
    if !s.ok then Parsed(false, Obj(members), Report(s.c, EndInsideObject))
    else if Is(s.c, ObjectEnd) then
      Parsed(true, Obj(members), TrailingComma(s.c, rules, trailing, TrailingCommaInObject))
    else
      var k := ParseKey(s.c, rules);
      ObjectField(k.c, rules, members, k.text, trailing && !Is(s.c, String))
  }

  /** The delimiter after a key, and the value. */
  function FieldValue(c: Context, rules: Rules): (r: Parsed)
    ensures Extends(c, r.c) && (r.ok ==> |r.c.rest| < |c.rest|)
    decreases |c.rest|, 1
  {
    hide Extends, Advance; ExtendsAll();
    var s := Advance(c, rules);
    if !s.ok then Parsed(false, Value.Null, Report(s.c, MissingDelimiter))
    else
      var v := ParseGeneric(if Is(s.c, KeyDelimiter) then s.c else Report(s.c, InvalidDelimiter), rules);
      if v.ok then v else Parsed(false, Value.Null, Report(v.c, IncompleteValue))
  }

  /** The rest of an iteration: the value, and what follows it. */
  function ObjectField(c: Context, rules: Rules, members: seq<Member>, key: bytes, trailing: bool): (r: Parsed)
    ensures Extends(c, r.c)
    decreases |c.rest|, 2
  {
    hide Extends, Advance, Find, Put; ExtendsAll();
    var v := FieldValue(c, rules);
    if !v.ok then Parsed(false, Obj(members), v.c)
    else
      var n := Advance(if Find(members, key).None? then v.c else Report(v.c, DuplicateKey), rules);
      var members := Put(members, key, v.val);
      if !n.ok then Parsed(false, Obj(members), Report(n.c, EndInsideObject))
      else if Is(n.c, ObjectEnd) then Parsed(true, Obj(members), n.c)
      else if Is(n.c, Separator) then ObjectLoop(n.c, rules, members, true)
      else ObjectLoop(Report(n.c, InvalidObjectToken), rules, members, trailing)
  }

  predicate AllNul(text: bytes) { forall i :: 0 <= i < |text| ==> text[i] == 0 }

  /** The first loop of `post_parse`: only NUL bytes may follow the value. */
  function Drain(c: Context, rules: Rules): (d: Context)
    ensures Extends(c, d)
    decreases |c.rest|
  {
    var s := Advance(c, rules);
    if !s.ok then s.c
    else if Is(s.c, Whitespace) || Is(s.c, Comment) || Is(s.c, Unknown) || AllNul(Current(s.c).text) then
      Drain(s.c, rules)
    else Drain(Report(s.c, DataAfterEnd), rules)
  }

  /** `depth_checker`: one problem each time the nesting reaches the limit. */
  function CheckDepth(c: Context, rules: Rules, v: Value, depth: nat): (d: Context)
    ensures Extends(c, d)
    decreases v, 1
  {
    if !IsContainer(v) then c
    else
      var c := if depth + 1 == rules.maxDepth then Report(c, TooDeep) else c;
      match v
      case Arr(items) => CheckItems(c, rules, items, depth + 1)
      case Obj(members) => CheckMembers(c, rules, members, depth + 1)
      case _ => c
  }

  function CheckItems(c: Context, rules: Rules, items: seq<Value>, depth: nat): (d: Context)
    ensures Extends(c, d)
    decreases items, 0
  {
    if items == [] then c else CheckItems(CheckDepth(c, rules, items[0], depth), rules, items[1..], depth)
  }

  function CheckMembers(c: Context, rules: Rules, members: seq<Member>, depth: nat): (d: Context)
    ensures Extends(c, d)
    decreases members, 0
  {
    if members == [] then c
    else CheckMembers(CheckDepth(c, rules, members[0].val, depth), rules, members[1..], depth)
  }

  /** After the check of what follows the value, if it is demanded and there are no problems yet. */
  function Drained(c: Context, rules: Rules): Context {
    if c.log == [] && rules.completeParse then Drain(c, rules) else c
  }

  /** After the check of the root, likewise. */
  function Rooted(c: Context, rules: Rules, v: Value): Context {
    if c.log == [] && rules.requireDocument && !IsContainer(v) then Report(c, NotADocument) else c
  }

  /** The checks of `post_parse`. */
  function PostParse(c: Context, rules: Rules, v: Value): (d: Context)
    ensures Extends(c, d)
  {
    var c := Rooted(Drained(c, rules), rules, v);
    if rules.maxDepth > 0 then CheckDepth(c, rules, v, 0) else c
  }

  /** A run of `parse` that collects every problem. */
  function ParseAll(c: Context, rules: Rules): (r: Parsed)
    ensures Extends(c, r.c)
  {
    var v := ParseGeneric(c, rules);
    var d := PostParse(if v.ok then v.c else Report(v.c, NoInput), rules, v.val);
    Parsed(d.log == [], v.val, d)
  }

  /** A context at the start of a text. */
  function StartOf(text: bytes): Context { Context(text, None, 0, 1, 0, false, [], []) }

  datatype Outcome = Returned(val: Value) | Thrown(problems: seq<Problem>, partial: Value)

  function Prefix<T>(s: seq<T>, n: nat): seq<T> { if n <= |s| then s[..n] else s }

  /** What a failure mode makes of a run. */
  function OutcomeOf(r: Parsed, opts: Options): Outcome {
    if r.c.log == [] then Returned(r.val)
    else
      match opts.failureMode
      case FailImmediately => Thrown([r.c.log[0]], Value.Null)
      case CollectAll => Thrown(Prefix(r.c.log, opts.maxFailures), r.val)
      case Ignore => Returned(r.val)
  }

  function Parse(text: bytes, opts: Options): Outcome { OutcomeOf(ParseAll(StartOf(text), opts.rules), opts) }
}
