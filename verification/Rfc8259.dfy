/** JSON texts as sections 2 to 7 of RFC 8259 define them, character by character, and what they mean. A phrase is a
    derivation of the grammar; it keeps the whitespace. */
module Rfc8259 {
  import opened Bytes
  import opened Json
  import opened Utf8
  import opened StringCodec
  import opened NumberGrammar
  import opened Integers

  type codepoint = x: int | 0 <= x <= 0x10FFFF

  type digits4 = s: bytes | |s| == 4 witness [ZERO, ZERO, ZERO, ZERO]

  /** Section 7: a character as it is, a two-character escape, or \u and four hexadecimal digits. */
  datatype Char = Unescaped(code: codepoint) | Short(letter: byte) | Escaped(digits: digits4)

  datatype Phrase =
    | LiteralPhrase(text: bytes)
    | NumberPhrase(form: NumberForm)
    | StringPhrase(chars: seq<Char>)
    | ArrayPhrase(gap: bytes, items: seq<Item>)
    | ObjectPhrase(gap: bytes, pairs: seq<Pair>)

  /** A value between whitespace. */
  datatype Item = Item(before: bytes, val: Phrase, after: bytes)

  datatype Pair = Pair(before: bytes, key: seq<Char>, after: bytes, item: Item)

  predicate AreSpaces(s: bytes) { forall i :: 0 <= i < |s| ==> s[i] in {0x20, 0x09, 0x0A, 0x0D} }

  predicate IsChar(c: Char) {
    match c
    case Unescaped(code) => IsScalar(code) && code >= 0x20 && code != 0x22 && code != 0x5C
    case Short(letter) => letter in {0x22, 0x5C, 0x2F, 0x62, 0x66, 0x6E, 0x72, 0x74}
    case Escaped(digits) => AreHexDigits(digits)
  }

  predicate AreChars(cs: seq<Char>) { forall i :: 0 <= i < |cs| ==> IsChar(cs[i]) }

  ghost predicate IsPhrase(p: Phrase) {
    match p
    case LiteralPhrase(text) => text in {TRUE_TEXT, FALSE_TEXT, NULL_TEXT}
    case NumberPhrase(form) => IsForm(form) && (form.whole == [ZERO] || form.whole[0] != ZERO)
    case StringPhrase(chars) => AreChars(chars)
    case ArrayPhrase(gap, items) => AreSpaces(gap) && forall i :: 0 <= i < |items| ==> IsItem(items[i])
    case ObjectPhrase(gap, pairs) =>
      AreSpaces(gap) && forall i :: 0 <= i < |pairs| ==>
        AreSpaces(pairs[i].before) && AreChars(pairs[i].key) && AreSpaces(pairs[i].after) && IsItem(pairs[i].item)
  }

  ghost predicate IsItem(item: Item) { AreSpaces(item.before) && IsPhrase(item.val) && AreSpaces(item.after) }

  // ---- text -----------------------------------------------------------------------------------------------------

  function CharText(c: Char): bytes
  {
    match c
    case Unescaped(code) => Utf8Of(code)
    case Short(letter) => [BACKSLASH, letter]
    case Escaped(digits) => [BACKSLASH, LOWER_U] + digits
  }

  function CharsText(cs: seq<Char>): bytes
  {
    if cs == [] then [] else CharText(cs[0]) + CharsText(cs[1..])
  }

  function StringText(cs: seq<Char>): bytes
  {
    [QUOTE] + CharsText(cs) + [QUOTE]
  }

  function PhraseText(p: Phrase): bytes
    decreases p, 2
  {
    match p
    case LiteralPhrase(text) => text
    case NumberPhrase(form) => FormText(form)
    case StringPhrase(chars) => StringText(chars)
    case ArrayPhrase(gap, items) => [LBRACKET] + if items == [] then gap + [RBRACKET] else ItemListText(items)
    case ObjectPhrase(gap, pairs) => [LBRACE] + if pairs == [] then gap + [RBRACE] else PairsText(pairs)
  }

  function ItemText(item: Item): bytes
    decreases item, 1
  {
    item.before + PhraseText(item.val) + item.after
  }

  /** The items with commas between them, and the closing bracket. */
  function ItemListText(items: seq<Item>): bytes
    requires items != []
    decreases items, 0
  {
    ItemText(items[0]) + if |items| == 1 then [RBRACKET] else [COMMA] + ItemListText(items[1..])
  }

  function PairsText(pairs: seq<Pair>): bytes
    requires pairs != []
    decreases pairs, 0
  {
    var p := pairs[0];
    p.before + StringText(p.key) + p.after + [COLON] + ItemText(p.item)
    + if |pairs| == 1 then [RBRACE] else [COMMA] + PairsText(pairs[1..])
  }

  // ---- meaning --------------------------------------------------------------------------------------------------

  /** The byte that a two-character escape stands for. */
  function ShortValue(letter: byte): byte {
    if letter == 0x62 then 0x08
    else if letter == 0x66 then 0x0C
    else if letter == 0x6E then 0x0A
    else if letter == 0x72 then 0x0D
    else if letter == 0x74 then 0x09
    else letter
  }

  /** A hexadecimal digit, in either case. */
  function DigitOf(c: byte): Option<nat> {
    if '0' as int <= c <= '9' as int then Some(c - '0' as int)
    else if 'a' as int <= c <= 'f' as int then Some(10 + c - 'a' as int)
    else if 'A' as int <= c <= 'F' as int then Some(10 + c - 'A' as int)
    else None
  }

  predicate AreHexDigits(digits: digits4) { forall i :: 0 <= i < 4 ==> DigitOf(digits[i]).Some? }

  /** The UTF-16 unit that four digits spell. */
  function UnitOf(digits: digits4): hex16 {
    if !AreHexDigits(digits) then 0
    else
      ((DigitOf(digits[0]).value * 16 + DigitOf(digits[1]).value) * 16 + DigitOf(digits[2]).value) * 16
      + DigitOf(digits[3]).value
  }

  /** The code point of a surrogate pair. */
  function PairOf(high: hex16, low: hex16): (r: Option<nat>)
    ensures r == Combine(high, low)
  {
    if 0xD800 <= high <= 0xDBFF && 0xDC00 <= low <= 0xDFFF then
      Some(0x1_0000 + (high - 0xD800) * 0x400 + (low - 0xDC00))
    else None
  }

  /** The string in UTF-8; None if an escaped surrogate is not one of a pair. */
  function StringValue(cs: seq<Char>): Option<bytes>
  {
    if cs == [] then Some([])
    else
      match cs[0]
      case Unescaped(code) => Prepend(Utf8Of(code), StringValue(cs[1..]))
      case Short(letter) => Prepend([ShortValue(letter)], StringValue(cs[1..]))
      case Escaped(digits) =>
        var unit := UnitOf(digits);
        if !(0xD800 <= unit <= 0xDFFF) then Prepend(Utf8Of(unit), StringValue(cs[1..]))
        else if |cs| < 2 || !cs[1].Escaped? then None
        else
          match PairOf(unit, UnitOf(cs[1].digits))
          case None => None
          case Some(code) => Prepend(Utf8Of(code), StringValue(cs[2..]))
  }

  /** Names are unique, and surrogates are paired: what sections 4 and 8.2 ask for interoperability. */
  ghost predicate IsInteroperable(p: Phrase)
    decreases p, 1
  {
    match p
    case StringPhrase(chars) => StringValue(chars).Some?
    case ArrayPhrase(_, items) => forall i :: 0 <= i < |items| ==> IsInteroperable(items[i].val)
    case ObjectPhrase(_, pairs) =>
      && (forall i :: 0 <= i < |pairs| ==> StringValue(pairs[i].key).Some? && IsInteroperable(pairs[i].item.val))
      && (forall i, j :: 0 <= i < j < |pairs| ==> StringValue(pairs[i].key) != StringValue(pairs[j].key))
    case _ => true
  }

  /** A number without fraction and exponent. */
  predicate IsInteger(f: NumberForm) { f.fraction.None? && f.exponent.None? }

  /** The integer that such a number denotes. */
  function Denoted(f: NumberForm): int { if f.minus then -(Natural(f.whole) as int) else Natural(f.whole) as int }

  predicate FitsInt64(n: int) { INT64_MIN <= n <= INT64_MAX }

  /** The tree `v` is what the phrase describes. An integer is itself, any other number the double that `strtod` reads
      from its text, and an object has a member for each pair and no other. */
  ghost predicate Describes(p: Phrase, v: Value)
    decreases p, 2
  {
    match p
    case LiteralPhrase(text) => v == if text == NULL_TEXT then Null else Bool(text == TRUE_TEXT)
    case NumberPhrase(f) => if IsInteger(f) then v.Int? && v.n == Denoted(f) else v == Decimal(Read(FormText(f)))
    case StringPhrase(chars) => v.Str? && StringValue(chars) == Some(v.s)
    case ArrayPhrase(_, items) =>
      && v.Arr? && |v.items| == |items|
      && forall i :: 0 <= i < |items| ==> Describes(items[i].val, v.items[i])
    case ObjectPhrase(_, pairs) =>
      && v.Obj? && Sorted(v.members)
      && (forall i :: 0 <= i < |pairs| ==> HasMember(v.members, pairs[i]))
      && (forall j :: 0 <= j < |v.members| ==> HasName(pairs, v.members[j].key))
  }

  ghost predicate HasMember(ms: seq<Member>, pair: Pair)
    decreases pair, 0
  {
    && StringValue(pair.key).Some?
    && Find(ms, StringValue(pair.key).value).Some?
    && Describes(pair.item.val, Find(ms, StringValue(pair.key).value).value)
  }

  ghost predicate HasName(pairs: seq<Pair>, name: bytes) {
    exists i :: 0 <= i < |pairs| && StringValue(pairs[i].key) == Some(name)
  }

  /** Every integer in the phrase is one of 64 bits. */
  ghost predicate IntegersFit(p: Phrase) {
    match p
    case NumberPhrase(f) => IsInteger(f) ==> FitsInt64(Denoted(f))
    case ArrayPhrase(_, items) => forall i :: 0 <= i < |items| ==> IntegersFit(items[i].val)
    case ObjectPhrase(_, pairs) => forall i :: 0 <= i < |pairs| ==> IntegersFit(pairs[i].item.val)
    case _ => true
  }

  /** Section 2: a value between whitespace. */
  ghost predicate IsText(text: bytes, v: Value) {
    exists item: Item :: IsItem(item) && ItemText(item) == text
      && IsInteroperable(item.val) && Describes(item.val, v)
  }
}
