/** The grammar of the texts that the parser accepts, stated without the parser: derivation trees over the
    stream of significant tokens, and what they mean. */
module Grammar {
  import opened Bytes
  import opened Json
  import opened StringCodec
  import opened TokenPatterns
  import opened Tokenizing
  import opened ParserSpec

  predicate IsPlain(t: Token, kind: Kind) { t.kind == kind && !t.error }

  predicate IsSignificant(t: Token) { !IsPlain(t, Whitespace) && !IsPlain(t, Comment) }

  predicate StartsValue(t: Token) {
    !t.error && t.kind in {ArrayBegin, ObjectBegin, Boolean, Kind.Null, Number, String}
  }

  /** Whitespace, and comments where the rules permit them. */
  predicate IsSkipped(t: Token, comments: bool) { IsPlain(t, Whitespace) || (IsPlain(t, Comment) && comments) }

  /** The significant tokens of a text. A comment that is not permitted stays and fits no derivation. */
  function Stream(s: bytes, comments: bool): seq<Token> {
    if s == [] then []
    else
      var t := FirstToken(s);
      (if IsSkipped(t, comments) then [] else [t]) + Stream(s[|t.text|..], comments)
  }

  datatype Field = Field(key: Token, val: Tree)

  /** A derivation; `trailing` says that a comma follows the last item. */
  datatype Tree =
    | Leaf(token: Token)
    | ArrayTree(items: seq<Tree>, trailing: bool)
    | ObjectTree(fields: seq<Field>, trailing: bool)

  const OPEN_ARRAY := Token([LBRACKET], ArrayBegin, false)
  const CLOSE_ARRAY := Token([RBRACKET], ArrayEnd, false)
  const OPEN_OBJECT := Token([LBRACE], ObjectBegin, false)
  const CLOSE_OBJECT := Token([RBRACE], ObjectEnd, false)
  const COLON_TOKEN := Token([Bytes.COLON], KeyDelimiter, false)
  const COMMA_TOKEN := Token([Bytes.COMMA], Separator, false)

  function Flatten(t: Tree): (r: seq<Token>)
    ensures r != []
    decreases t, 1
  {
    match t
    case Leaf(token) => [token]
    case ArrayTree(items, trailing) => [OPEN_ARRAY] + FlattenItems(items, trailing)
    case ObjectTree(fields, trailing) => [OPEN_OBJECT] + FlattenFields(fields, trailing)
  }

  /** Items, each but the last followed by a comma, up to the closing bracket. */
  function FlattenItems(items: seq<Tree>, trailing: bool): seq<Token>
    decreases items, 0
  {
    if items == [] then [CLOSE_ARRAY]
    else
      Flatten(items[0])
      + if |items| == 1 && !trailing then [CLOSE_ARRAY] else [COMMA_TOKEN] + FlattenItems(items[1..], trailing)
  }

  function FlattenFields(fields: seq<Field>, trailing: bool): seq<Token>
    decreases fields, 0
  {
    if fields == [] then [CLOSE_OBJECT]
    else
      assert fields[0].val < fields[0];
      [fields[0].key, COLON_TOKEN] + Flatten(fields[0].val)
      + if |fields| == 1 && !trailing then [CLOSE_OBJECT] else [COMMA_TOKEN] + FlattenFields(fields[1..], trailing)
  }

  function Decoded(t: Token, rules: Rules): Option<bytes> { Decode(rules.encoding, Inner(t.text), 0) }

  function Key(f: Field, rules: Rules): bytes {
    match Decoded(f.key, rules)
    case Some(key) => key
    case None => []
  }

  predicate IsScalarToken(t: Token, rules: Rules) {
    && !t.error
    && match t.kind
       case Boolean => t.text == TRUE_TEXT || t.text == FALSE_TEXT
       case Null => t.text == NULL_TEXT
       case Number => !(rules.strictNumbers && HasLeadingZero(t.text))
       case String => Decoded(t, rules).Some?
       case _ => false
  }

  ghost predicate DistinctKeys(fields: seq<Field>, rules: Rules) {
    forall i, j :: 0 <= i < j < |fields| ==> Key(fields[i], rules) != Key(fields[j], rules)
  }

  predicate IsKey(f: Field, rules: Rules) { IsPlain(f.key, String) && Decoded(f.key, rules).Some? }

  ghost predicate IsValue(t: Tree, rules: Rules) {
    match t
    case Leaf(token) => IsScalarToken(token, rules)
    case ArrayTree(items, trailing) =>
      && (trailing ==> items != [] && rules.allowTrailing)
      && forall i :: 0 <= i < |items| ==> IsValue(items[i], rules)
    case ObjectTree(fields, trailing) =>
      && (trailing ==> fields != [] && rules.allowTrailing)
      && DistinctKeys(fields, rules)
      && forall i :: 0 <= i < |fields| ==> IsKey(fields[i], rules) && IsValue(fields[i].val, rules)
  }

  function ScalarMeaning(t: Token, rules: Rules): Value {
    match t.kind
    case Boolean => Bool(t.text == TRUE_TEXT)
    case Number => NumberValue(t.text)
    case String => Str(match Decoded(t, rules) case Some(s) => s case None => [])
    case _ => Value.Null
  }

  function Meaning(t: Tree, rules: Rules): Value
    decreases t, 1
  {
    match t
    case Leaf(token) => ScalarMeaning(token, rules)
    case ArrayTree(items, _) => Arr(ItemMeanings(items, rules))
    case ObjectTree(fields, _) => Obj(FieldMeanings(fields, rules, []))
  }

  function ItemMeanings(items: seq<Tree>, rules: Rules): seq<Value>
    decreases items, 0
  {
    if items == [] then [] else [Meaning(items[0], rules)] + ItemMeanings(items[1..], rules)
  }

  function FieldMeanings(fields: seq<Field>, rules: Rules, members: seq<Member>): seq<Member>
    decreases fields, 0
  {
    if fields == [] then members
    else
      assert fields[0].val < fields[0];
      FieldMeanings(fields[1..], rules, Put(members, Key(fields[0], rules), Meaning(fields[0].val, rules)))
  }

  function Max(a: nat, b: nat): nat { if a >= b then a else b }

  /** How deep arrays and objects nest. */
  function Depth(v: Value): nat
    decreases v, 1
  {
    match v
    case Arr(items) => 1 + ItemsDepth(items)
    case Obj(members) => 1 + MembersDepth(members)
    case _ => 0
  }

  function ItemsDepth(items: seq<Value>): nat
    decreases items, 0
  {
    if items == [] then 0 else Max(Depth(items[0]), ItemsDepth(items[1..]))
  }

  function MembersDepth(members: seq<Member>): nat
    decreases members, 0
  {
    if members == [] then 0 else Max(Depth(members[0].val), MembersDepth(members[1..]))
  }

  ghost predicate OnlyNuls(ts: seq<Token>) { forall i :: 0 <= i < |ts| ==> AllNul(ts[i].text) }

  /** `t` derives a text that starts with the value `v`, and the rules accept it. */
  ghost predicate Derives(t: Tree, rest: seq<Token>, text: bytes, rules: Rules, v: Value) {
    && Stream(text, rules.comments) == Flatten(t) + rest
    && IsValue(t, rules) && Meaning(t, rules) == v
    && (rules.completeParse ==> OnlyNuls(rest))
    && (rules.requireDocument ==> IsContainer(v))
    && (rules.maxDepth > 0 ==> Depth(v) < rules.maxDepth)
  }

  /** The grammar: some derivation of the text means `v`. */
  ghost predicate InGrammar(text: bytes, rules: Rules, v: Value) { exists t, rest :: Derives(t, rest, text, rules, v) }
}
