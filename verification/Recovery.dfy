/** What the parser makes of a text with problems, stated without the parser: derivations that fit every sequence of
    significant tokens, the value that is kept, and the problems with their places. */
module Recovery {
  import opened Bytes
  import opened Json
  import opened TokenPatterns
  import opened Tokenizing
  import opened ParserSpec
  import opened Grammar
  import Positions

  /** A value, good or bad. An invalid token takes everything up to a token that is no scalar, and that token too. */
  datatype Node =
    | Scalar(token: Token)
    | Junk(token: Token, skipped: seq<Token>, stop: Option<Token>)
    | Array(entries: seq<Entry>, closed: bool)
    | Object(slots: seq<Slot>, ending: Ending)

  /** An item, and the token after it unless that is the closing bracket. */
  datatype Entry = Entry(val: Node, after: Option<Token>)

  /** A key, whatever stands in for the colon, the value, and the token after it unless that is the closing brace. */
  datatype Slot = Slot(key: Token, delimiter: Token, val: Node, after: Option<Token>)

  /** How an object ends: closed, or cut off at one of three places. */
  datatype Ending = Closed | Cut | NoDelimiter(key: Token) | NoValue(key: Token, delimiter: Token)

  function Opt(t: Option<Token>): seq<Token> { if t.Some? then [t.value] else [] }

  /** The value is read to its end; otherwise the input ends first. */
  predicate IsOk(n: Node) {
    match n
    case Scalar(_) => true
    case Junk(_, _, stop) => stop.Some?
    case Array(_, closed) => closed
    case Object(_, ending) => ending.Closed?
  }

  // ---- the tokens -----------------------------------------------------------------------------------------------

  function Tokens(n: Node): (r: seq<Token>)
    ensures r != []
    decreases n, 1
  {
    match n
    case Scalar(token) => [token]
    case Junk(token, skipped, stop) => [token] + (skipped + Opt(stop))
    case Array(entries, closed) => [OPEN_ARRAY] + EntriesTokens(entries, closed)
    case Object(slots, ending) => [OPEN_OBJECT] + SlotsTokens(slots, ending)
  }

  function EntriesTokens(entries: seq<Entry>, closed: bool): seq<Token>
    decreases entries, 0
  {
    if entries == [] then if closed then [CLOSE_ARRAY] else []
    else
      assert entries[0].val < entries[0];
      Tokens(entries[0].val) + (Opt(entries[0].after) + EntriesTokens(entries[1..], closed))
  }

  function EndingTokens(ending: Ending): seq<Token> {
    match ending
    case Closed => [CLOSE_OBJECT]
    case Cut => []
    case NoDelimiter(key) => [key]
    case NoValue(key, delimiter) => [key, delimiter]
  }

  function SlotsTokens(slots: seq<Slot>, ending: Ending): seq<Token>
    decreases slots, 0
  {
    if slots == [] then EndingTokens(ending)
    else
      var s := slots[0];
      assert s.val < slots[0];
      [s.key, s.delimiter] + (Tokens(s.val) + (Opt(s.after) + SlotsTokens(slots[1..], ending)))
  }

  // ---- which derivations there are ------------------------------------------------------------------------------

  /** What is skipped after an invalid token: scalars, and what is no token at all. */
  predicate IsSkippable(t: Token) { t.error || t.kind in {Boolean, Kind.Null, Number, String, Unknown} }

  ghost predicate IsNode(n: Node) {
    match n
    case Scalar(t) => !t.error && t.kind in {Boolean, Kind.Null, Number, String}
    case Junk(t, skipped, stop) =>
      && !StartsValue(t) && IsSignificant(t)
      && (forall i :: 0 <= i < |skipped| ==> IsSkippable(skipped[i]))
      && (stop.Some? ==> !IsSkippable(stop.value))
    case Array(entries, closed) =>
      && (forall i :: 0 <= i < |entries| ==>
            IsNode(entries[i].val) && !IsPlain(Tokens(entries[i].val)[0], ArrayEnd))
      && (forall i :: 0 <= i < |entries| ==> EndsWell(entries[i], i == |entries| - 1, closed))
    case Object(slots, ending) =>
      && (forall i :: 0 <= i < |slots| ==> IsNode(slots[i].val) && !IsPlain(slots[i].key, ObjectEnd))
      && (forall i :: 0 <= i < |slots| ==> LeadsOn(slots[i], i == |slots| - 1, ending))
      && (ending.NoDelimiter? || ending.NoValue? ==> !IsPlain(ending.key, ObjectEnd))
  }

  /** Only the last item may have nothing after it, and only the input can end inside an item. */
  predicate EndsWell(e: Entry, last: bool, closed: bool) {
    if e.after.Some? then IsOk(e.val) && !IsPlain(e.after.value, ArrayEnd) else last && (closed ==> IsOk(e.val))
  }

  predicate LeadsOn(s: Slot, last: bool, ending: Ending) {
    if s.after.Some? then IsOk(s.val) && !IsPlain(s.after.value, ObjectEnd)
    else last && (ending.Cut? || (ending.Closed? && IsOk(s.val)))
  }

  /** The significant tokens of a text start with a value, which goes on to the end of the input if it is cut off. */
  ghost predicate Starts(n: Node, rest: seq<Token>, text: bytes) {
    IsNode(n) && Stream(text, true) == Tokens(n) + rest && (IsOk(n) || rest == [])
  }

  // ---- the value that is kept -----------------------------------------------------------------------------------

  /** A string that cannot be decoded is kept as it is. */
  function StringKept(t: Token, rules: Rules): bytes {
    match Decoded(t, rules)
    case Some(s) => s
    case None => Inner(t.text)
  }

  /** Anything but a string stands for its own text. */
  function KeyKept(t: Token, rules: Rules): bytes { if IsPlain(t, String) then StringKept(t, rules) else t.text }

  /** An invalid token is kept as null. Items and fields that are cut off themselves are dropped. */
  function Kept(n: Node, rules: Rules): Value
    decreases n, 1
  {
    match n
    case Scalar(t) =>
      if t.kind == String then Str(StringKept(t, rules))
      else if t.kind == Boolean then Bool(t.text == TRUE_TEXT)
      else if t.kind == Number then NumberValue(t.text)
      else Value.Null
    case Junk(_, _, _) => Value.Null
    case Array(entries, _) => Arr(ItemsKept(entries, rules))
    case Object(slots, _) => Obj(FieldsKept(slots, rules, []))
  }

  function ItemsKept(entries: seq<Entry>, rules: Rules): seq<Value>
    decreases entries, 0
  {
    if entries == [] then []
    else
      assert entries[0].val < entries[0];
      (if IsOk(entries[0].val) then [Kept(entries[0].val, rules)] else []) + ItemsKept(entries[1..], rules)
  }

  /** The fields in turn; a later one replaces an earlier one of the same key. */
  function FieldsKept(slots: seq<Slot>, rules: Rules, members: seq<Member>): seq<Member>
    decreases slots, 0
  {
    if slots == [] then members
    else
      var s := slots[0];
      assert s.val < slots[0];
      FieldsKept(slots[1..], rules,
                 if IsOk(s.val) then Put(members, KeyKept(s.key, rules), Kept(s.val, rules)) else members)
  }

  // ---- the problems ---------------------------------------------------------------------------------------------

  /** A token, by how many significant tokens come after it, or the end of the input, by how often `next` has been
      called again since it was reached. */
  datatype Place = OnToken(left: nat) | AtEnd(late: nat)

  datatype Fault = Fault(reason: Reason, place: Place)

  /** A value that is cut off: how often `next` is called again after it has reached the end. Each array around it does
      so once. */
  function Late(n: Node): nat
    decreases n, 1
  {
    match n
    case Array(entries, _) => EntriesLate(entries)
    case Object(slots, _) => SlotsLate(slots)
    case _ => 0
  }

  function EntriesLate(entries: seq<Entry>): nat
    decreases entries, 0
  {
    if entries == [] then 0
    else if |entries| > 1 then EntriesLate(entries[1..])
    else
      assert entries[0].val < entries[0];
      if IsOk(entries[0].val) then 0 else Late(entries[0].val) + 1
  }

  function SlotsLate(slots: seq<Slot>): nat
    decreases slots, 0
  {
    if slots == [] then 0
    else if |slots| > 1 then SlotsLate(slots[1..])
    else
      assert slots[0].val < slots[0];
      if IsOk(slots[0].val) then 0 else Late(slots[0].val)
  }

  function ScalarFaults(t: Token, rules: Rules, left: nat): seq<Fault> {
    if t.kind == String && Decoded(t, rules).None? then [Fault(BadString, OnToken(left))]
    else if t.kind == Number && rules.strictNumbers && HasLeadingZero(t.text) then
      [Fault(Reason.LeadingZero, OnToken(left))]
    else []
  }

  function KeyFaults(t: Token, rules: Rules, left: nat): seq<Fault> {
    if !IsPlain(t, String) then [Fault(ExpectingKey, OnToken(left))]
    else if Decoded(t, rules).None? then [Fault(BadString, OnToken(left))]
    else []
  }

  function DelimiterFaults(t: Token, left: nat): seq<Fault> {
    if IsPlain(t, KeyDelimiter) then [] else [Fault(InvalidDelimiter, OnToken(left))]
  }

  function TrailingFaults(trailing: bool, rules: Rules, reason: Reason, left: nat): seq<Fault> {
    if trailing && !rules.allowTrailing then [Fault(reason, OnToken(left))] else []
  }

  /** The problems of a value with `after` tokens behind it. */
  function Faults(n: Node, rules: Rules, after: nat): seq<Fault>
    decreases n, 1
  {
    match n
    case Scalar(t) => ScalarFaults(t, rules, after)
    case Junk(_, skipped, stop) => [Fault(InvalidToken, OnToken(|skipped| + |Opt(stop)| + after))]
    case Array(entries, closed) => EntriesFaults(entries, closed, false, rules, after)
    case Object(slots, ending) => SlotsFaults(slots, ending, {}, false, rules, after)
  }

  /** `trailing` says that a comma comes before these items. */
  function EntriesFaults(entries: seq<Entry>, closed: bool, trailing: bool, rules: Rules, after: nat): seq<Fault>
    decreases entries, 0
  {
    if entries == [] then
      if closed then TrailingFaults(trailing, rules, TrailingCommaInArray, after) else [Fault(UnmatchedArray, AtEnd(0))]
    else
      var e, left := entries[0], |EntriesTokens(entries[1..], closed)| + after;
      assert e.val < entries[0];
      Faults(e.val, rules, |Opt(e.after)| + left)
      + if e.after.None? then if closed then [] else [Fault(UnmatchedArray, AtEnd(EntriesLate(entries)))]
        else if IsPlain(e.after.value, Separator) then EntriesFaults(entries[1..], closed, true, rules, after)
        else [Fault(InvalidArrayEntry, OnToken(left))] + EntriesFaults(entries[1..], closed, false, rules, after)
  }

  function EndingFaults(ending: Ending, trailing: bool, rules: Rules, after: nat): seq<Fault> {
    match ending
    case Closed => TrailingFaults(trailing, rules, TrailingCommaInObject, after)
    case Cut => [Fault(EndInsideObject, AtEnd(0))]
    case NoDelimiter(key) => KeyFaults(key, rules, after) + [Fault(MissingDelimiter, AtEnd(0))]
    case NoValue(key, delimiter) =>
      KeyFaults(key, rules, 1 + after) + DelimiterFaults(delimiter, after) + [Fault(IncompleteValue, AtEnd(0))]
  }

  /** `seen` are the keys so far. A comma stays pending over fields whose key is no string. */
  function SlotsFaults(
    slots: seq<Slot>, ending: Ending, seen: set<bytes>, trailing: bool, rules: Rules, after: nat): seq<Fault>
    decreases slots, 0
  {
    if slots == [] then EndingFaults(ending, trailing, rules, after)
    else
      var s, left := slots[0], |SlotsTokens(slots[1..], ending)| + after;
      var tail, key := |Opt(s.after)| + left, KeyKept(s.key, rules);
      assert s.val < slots[0];
      KeyFaults(s.key, rules, 1 + |Tokens(s.val)| + tail)
      + DelimiterFaults(s.delimiter, |Tokens(s.val)| + tail)
      + Faults(s.val, rules, tail)
      + if !IsOk(s.val) then [Fault(IncompleteValue, AtEnd(Late(s.val)))]
        else
          (if key in seen then [Fault(DuplicateKey, OnToken(tail))] else [])
          + if s.after.None? then if ending.Closed? then [] else [Fault(EndInsideObject, AtEnd(0))]
            else if IsPlain(s.after.value, Separator) then
              SlotsFaults(slots[1..], ending, seen + {key}, true, rules, after)
            else
              [Fault(InvalidObjectToken, OnToken(left))]
              + SlotsFaults(slots[1..], ending, seen + {key}, trailing && !IsPlain(s.key, String), rules, after)
  }

  /** How many arrays and objects are nested `limit` deep, of which `depth` are around the value. */
  function CountDeep(v: Value, depth: nat, limit: nat): nat
    decreases v, 1
  {
    match v
    case Arr(items) => (if depth + 1 == limit then 1 else 0) + CountDeepItems(items, depth + 1, limit)
    case Obj(members) => (if depth + 1 == limit then 1 else 0) + CountDeepMembers(members, depth + 1, limit)
    case _ => 0
  }

  function CountDeepItems(items: seq<Value>, depth: nat, limit: nat): nat
    decreases items, 0
  {
    if items == [] then 0 else CountDeep(items[0], depth, limit) + CountDeepItems(items[1..], depth, limit)
  }

  function CountDeepMembers(members: seq<Member>, depth: nat, limit: nat): nat
    decreases members, 0
  {
    if members == [] then 0
    else CountDeep(members[0].val, depth, limit) + CountDeepMembers(members[1..], depth, limit)
  }

  /** A problem for each token after the value that is more than NUL bytes. */
  function RestFaults(rest: seq<Token>): seq<Fault> {
    if rest == [] then []
    else (if AllNul(rest[0].text) then [] else [Fault(DataAfterEnd, OnToken(|rest| - 1))]) + RestFaults(rest[1..])
  }

  /** The problems of a whole text. What follows the value is looked at only if there are none before, and the kind of
      the root only if there are still none. */
  function AllFaults(n: Node, rest: seq<Token>, rules: Rules): seq<Fault> {
    var own := Faults(n, rules, |rest|) + if IsOk(n) then [] else [Fault(NoInput, AtEnd(Late(n)))];
    var drained := own == [] && rules.completeParse;
    var place := if drained then AtEnd(0) else if IsOk(n) then OnToken(|rest|) else AtEnd(Late(n));
    var behind := if drained then RestFaults(rest) else [];
    var root :=
      if own + behind == [] && rules.requireDocument && !IsContainer(Kept(n, rules)) then [Fault(NotADocument, place)]
      else [];
    var deep := if rules.maxDepth > 0 then CountDeep(Kept(n, rules), 0, rules.maxDepth) else 0;
    own + behind + root + seq(deep, _ => Fault(TooDeep, place))
  }

  // ---- places in a text -----------------------------------------------------------------------------------------

  /** The text from the significant token on that has `left` significant tokens after it. */
  function SuffixAt(text: bytes, left: nat): (r: bytes)
    ensures |r| <= |text|
  {
    if text == [] then []
    else
      var after := text[|FirstToken(text).text|..];
      if IsSignificant(FirstToken(text)) && |Stream(after, true)| == left then text else SuffixAt(after, left)
  }

  /** The text before a place. */
  function TextBefore(text: bytes, place: Place): bytes {
    match place
    case OnToken(left) => text[..|text| - |SuffixAt(text, left)|]
    case AtEnd(_) => text
  }

  /** A problem at a place: lines and columns are counted from one. At the end each further call of `next` counts as a
      line. */
  ghost predicate IsAtPlace(p: Problem, place: Place, text: bytes) {
    var before := TextBefore(text, place);
    && p.character == |before| && p.column == 1 + Positions.SinceBreak(before)
    && p.line == 1 + Positions.Breaks(before) + if place.AtEnd? then place.late else 0
  }
}
