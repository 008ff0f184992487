/** Exactly which JSON texts of RFC 8259 the parser accepts, under any rules that read UTF-8. */
module StrictConformance {
  import opened Bytes
  import opened Json
  import opened Utf8
  import opened StringCodec
  import opened TokenPatterns
  import opened NumberGrammar
  import opened Tokenizing
  import opened ParserSpec
  import opened Grammar
  import opened GrammarTheorems
  import opened RoundTrip
  import opened Rfc8259
  import opened Conformance

  // ---- tokens ---------------------------------------------------------------------------------------------------

  /** What the rules ask of a token by itself. */
  predicate IsValidToken(t: Token, rules: Rules) {
    && !t.error
    && (t.kind == Number ==> !(rules.strictNumbers && HasLeadingZero(t.text)))
    && (t.kind == String ==> Decoded(t, rules).Some?)
  }

  ghost predicate AreValid(ts: seq<Token>, rules: Rules) { forall i :: 0 <= i < |ts| ==> IsValidToken(ts[i], rules) }

  lemma ValidConcat(a: seq<Token>, b: seq<Token>, rules: Rules)
    ensures AreValid(a + b, rules) <==> AreValid(a, rules) && AreValid(b, rules)
  {
    hide IsValidToken;
    assert forall i :: 0 <= i < |a| ==> (a + b)[i] == a[i];
    assert forall i :: 0 <= i < |b| ==> (a + b)[|a| + i] == b[i];
  }

  lemma PunctuationIsValid(rules: Rules)
    ensures AreValid([OPEN_ARRAY], rules) && AreValid([CLOSE_ARRAY], rules) && AreValid([COMMA_TOKEN], rules)
    ensures AreValid([OPEN_OBJECT], rules) && AreValid([CLOSE_OBJECT], rules) && IsValidToken(COLON_TOKEN, rules)
  {
  }

  /** The tokens of an item list, one item at a time. */
  lemma FlattenItemsStep(items: seq<Tree>, trailing: bool)
    ensures FlattenItems(items, trailing) ==
      if items == [] then [CLOSE_ARRAY]
      else
        Flatten(items[0])
        + if |items| == 1 && !trailing then [CLOSE_ARRAY] else [COMMA_TOKEN] + FlattenItems(items[1..], trailing)
  {
    hide Flatten;
  }

  lemma FlattenFieldsStep(fields: seq<Field>, trailing: bool)
    ensures FlattenFields(fields, trailing) ==
      if fields == [] then [CLOSE_OBJECT]
      else
        [fields[0].key, COLON_TOKEN] + Flatten(fields[0].val)
        + if |fields| == 1 && !trailing then [CLOSE_OBJECT] else [COMMA_TOKEN] + FlattenFields(fields[1..], trailing)
  {
    hide Flatten;
  }

  /** A valid derivation has valid tokens. */
  lemma {:induction false} ValueHasValidTokens(t: Tree, rules: Rules)
    requires IsValue(t, rules)
    ensures AreValid(Flatten(t), rules)
    decreases t, 1
  {
    hide FlattenItems, FlattenFields, Decoded, HasLeadingZero;
    PunctuationIsValid(rules);
    match t
    case Leaf(_) =>
    case ArrayTree(items, trailing) =>
      ItemsHaveValidTokens(items, trailing, rules);
      ValidConcat([OPEN_ARRAY], FlattenItems(items, trailing), rules);
    case ObjectTree(fields, trailing) =>
      FieldsHaveValidTokens(fields, trailing, rules);
      ValidConcat([OPEN_OBJECT], FlattenFields(fields, trailing), rules);
  }

  lemma {:induction false} ItemsHaveValidTokens(items: seq<Tree>, trailing: bool, rules: Rules)
    requires forall i :: 0 <= i < |items| ==> IsValue(items[i], rules)
    ensures AreValid(FlattenItems(items, trailing), rules)
    decreases items, 0
  {
    hide Flatten, IsValue, FlattenItems, AreValid;
    PunctuationIsValid(rules);
    FlattenItemsStep(items, trailing);
    if items != [] {
      ValueHasValidTokens(items[0], rules);
      ItemsHaveValidTokens(items[1..], trailing, rules);
      var rest := FlattenItems(items[1..], trailing);
      ValidConcat([COMMA_TOKEN], rest, rules);
      ValidConcat(Flatten(items[0]), [COMMA_TOKEN] + rest, rules);
      ValidConcat(Flatten(items[0]), [CLOSE_ARRAY], rules);
    }
  }

  lemma KeyIsValid(f: Field, rules: Rules)
    requires IsKey(f, rules)
    ensures AreValid([f.key, COLON_TOKEN], rules)
  {
    hide Decoded;
  }

  lemma {:induction false} FieldsHaveValidTokens(fields: seq<Field>, trailing: bool, rules: Rules)
    requires forall i :: 0 <= i < |fields| ==> IsKey(fields[i], rules) && IsValue(fields[i].val, rules)
    ensures AreValid(FlattenFields(fields, trailing), rules)
    decreases fields, 0
  {
    hide Flatten, IsValue, IsKey, FlattenFields, AreValid;
    PunctuationIsValid(rules);
    FlattenFieldsStep(fields, trailing);
    if fields != [] {
      assert fields[0].val < fields[0];
      KeyIsValid(fields[0], rules);
      ValueHasValidTokens(fields[0].val, rules);
      FieldsHaveValidTokens(fields[1..], trailing, rules);
      var rest := FlattenFields(fields[1..], trailing);
      var head := [fields[0].key, COLON_TOKEN];
      ValidConcat([COMMA_TOKEN], rest, rules);
      ValidConcat(head, Flatten(fields[0].val), rules);
      ValidConcat(head + Flatten(fields[0].val), [COMMA_TOKEN] + rest, rules);
      ValidConcat(head + Flatten(fields[0].val), [CLOSE_OBJECT], rules);
    }
  }

  /** A phrase whose tokens are valid is admitted. */
  lemma {:induction false} ValidTokensAdmit(p: Phrase, rules: Rules)
    requires IsPhrase(p) && IsInteroperable(p) && rules.encoding != Cesu8
    requires AreValid(Flatten(TreeOfPhrase(p)), rules)
    ensures IsAdmitted(p, rules)
    decreases p, 1
  {
    hide FlattenItems, FlattenFields, TreesOfItems, FieldsOfPairs, Decoded, HasLeadingZero, IsMisjudged, FormText;
    hide StringValue, StringText, HasDel;
    match p
    case NumberPhrase(f) =>
      MisjudgedIsRefused(f);
      assert Flatten(TreeOfPhrase(p))[0] == Token(FormText(f), Number, false);
    case StringPhrase(chars) =>
      StringMeans(chars, rules);
      assert Flatten(TreeOfPhrase(p))[0] == StringToken(chars);
    case ArrayPhrase(_, items) =>
      ValidConcat([OPEN_ARRAY], FlattenItems(TreesOfItems(items), false), rules);
      ItemsAreAdmitted(items, rules);
    case ObjectPhrase(gap, pairs) =>
      ValidConcat([OPEN_OBJECT], FlattenFields(FieldsOfPairs(pairs), false), rules);
      PairsAreAdmitted(pairs, rules);
    case _ =>
  }

  lemma {:induction false} ItemsAreAdmitted(items: seq<Item>, rules: Rules)
    requires rules.encoding != Cesu8 && AreValid(FlattenItems(TreesOfItems(items), false), rules)
    requires forall i :: 0 <= i < |items| ==> IsPhrase(items[i].val) && IsInteroperable(items[i].val)
    ensures forall i :: 0 <= i < |items| ==> IsAdmitted(items[i].val, rules)
    decreases items, 0
  {
    hide IsPhrase, IsInteroperable, IsAdmitted, TreeOfPhrase, Flatten, FlattenItems, AreValid;
    if items != [] {
      TreesOfItemsStep(items);
      var first, rest := Flatten(TreeOfPhrase(items[0].val)), FlattenItems(TreesOfItems(items[1..]), false);
      ValidConcat(first, if |items| == 1 then [CLOSE_ARRAY] else [COMMA_TOKEN] + rest, rules);
      assert items[0].val < items[0];
      ValidTokensAdmit(items[0].val, rules);
      if |items| > 1 {
        ValidConcat([COMMA_TOKEN], rest, rules);
        ItemsAreAdmitted(items[1..], rules);
      }
    }
  }

  lemma {:induction false} PairsAreAdmitted(pairs: seq<Pair>, rules: Rules)
    requires rules.encoding != Cesu8 && AreValid(FlattenFields(FieldsOfPairs(pairs), false), rules)
    requires forall i :: 0 <= i < |pairs| ==>
      AreChars(pairs[i].key) && IsPhrase(pairs[i].item.val) && IsInteroperable(pairs[i].item.val)
    ensures forall i :: 0 <= i < |pairs| ==>
      (rules.encoding == Utf8Strict ==> !HasDel(pairs[i].key)) && IsAdmitted(pairs[i].item.val, rules)
    decreases pairs, 0
  {
    hide IsPhrase, IsInteroperable, IsAdmitted, TreeOfPhrase, Flatten, FlattenFields, AreValid, HasDel, AreChars;
    hide StringToken, FieldsOfPairs;
    if pairs != [] {
      FieldsOfPairsStep(pairs);
      var head := [StringToken(pairs[0].key), COLON_TOKEN];
      var first, rest := Flatten(TreeOfPhrase(pairs[0].item.val)), FlattenFields(FieldsOfPairs(pairs[1..]), false);
      ValidConcat(head + first, if |pairs| == 1 then [CLOSE_OBJECT] else [COMMA_TOKEN] + rest, rules);
      ValidConcat(head, first, rules);
      NameIsAdmitted(pairs[0].key, rules);
      assert pairs[0].item.val < pairs[0].item < pairs[0];
      ValidTokensAdmit(pairs[0].item.val, rules);
      if |pairs| > 1 {
        ValidConcat([COMMA_TOKEN], rest, rules);
        PairsAreAdmitted(pairs[1..], rules);
      }
    }
  }

  lemma NameIsAdmitted(key: seq<Char>, rules: Rules)
    requires AreChars(key) && rules.encoding != Cesu8 && AreValid([StringToken(key), COLON_TOKEN], rules)
    ensures rules.encoding == Utf8Strict ==> !HasDel(key)
  {
    hide Decoded, StringValue, StringText, HasDel;
    StringMeans(key, rules);
    assert [StringToken(key), COLON_TOKEN][0] == StringToken(key);
  }

  // ---- dropping the strict checks -------------------------------------------------------------------------------

  /** The same rules without the strict checks and without demands on the root and the depth. */
  function Lenient(rules: Rules): Rules {
    rules.(encoding := Encoding.Utf8, strictNumbers := false, requireDocument := false, maxDepth := 0)
  }

  lemma {:induction false} StrictDecodeAgrees(s: bytes, pending: nat)
    requires Decode(Utf8Strict, s, pending).Some?
    ensures Decode(Encoding.Utf8, s, pending) == Decode(Utf8Strict, s, pending)
    decreases |s|
  {
    hide Utf8Of, Combine, FromHex4;
    if s != [] {
      if pending == 0 && s[0] == BACKSLASH {
        assert Unescape(Encoding.Utf8, s) == Unescape(Utf8Strict, s);
        StrictDecodeAgrees(s[Unescape(Utf8Strict, s).value.length..], 0);
      } else {
        StrictDecodeAgrees(s[1..], Accept(Utf8Strict, s[0], pending).value);
      }
    }
  }

  lemma LenientToken(t: Token, rules: Rules)
    requires rules.encoding != Cesu8
    ensures Decoded(t, rules).Some? ==> Decoded(t, Lenient(rules)) == Decoded(t, rules)
  {
    hide Decode;
    if Decoded(t, rules).Some? && rules.encoding == Utf8Strict {
      StrictDecodeAgrees(Inner(t.text), 0);
    }
  }

  lemma {:induction false} LenientValue(t: Tree, rules: Rules)
    requires IsValue(t, rules) && rules.encoding != Cesu8
    ensures IsValue(t, Lenient(rules)) && Meaning(t, Lenient(rules)) == Meaning(t, rules)
    decreases t, 1
  {
    hide ItemMeanings, FieldMeanings, Decoded, HasLeadingZero, NumberValue;
    match t
    case Leaf(token) =>
      LenientToken(token, rules);
    case ArrayTree(items, _) =>
      LenientItems(items, rules);
    case ObjectTree(fields, _) =>
      LenientFields(fields, rules);
      LenientBuild(fields, rules, []);
  }

  lemma {:induction false} LenientItems(items: seq<Tree>, rules: Rules)
    requires rules.encoding != Cesu8 && forall i :: 0 <= i < |items| ==> IsValue(items[i], rules)
    ensures forall i :: 0 <= i < |items| ==> IsValue(items[i], Lenient(rules))
    ensures ItemMeanings(items, Lenient(rules)) == ItemMeanings(items, rules)
    decreases items, 0
  {
    hide IsValue, Meaning;
    if items != [] {
      LenientValue(items[0], rules);
      LenientItems(items[1..], rules);
    }
  }

  lemma {:induction false} LenientFields(fields: seq<Field>, rules: Rules)
    requires rules.encoding != Cesu8 && DistinctKeys(fields, rules)
    requires forall i :: 0 <= i < |fields| ==> IsKey(fields[i], rules) && IsValue(fields[i].val, rules)
    ensures forall i :: 0 <= i < |fields| ==>
      && IsKey(fields[i], Lenient(rules)) && IsValue(fields[i].val, Lenient(rules))
      && Key(fields[i], Lenient(rules)) == Key(fields[i], rules)
      && Meaning(fields[i].val, Lenient(rules)) == Meaning(fields[i].val, rules)
    ensures DistinctKeys(fields, Lenient(rules))
    decreases fields, 0
  {
    hide IsValue, Meaning, Decoded;
    forall i | 0 <= i < |fields|
      ensures IsKey(fields[i], Lenient(rules)) && IsValue(fields[i].val, Lenient(rules))
      ensures Key(fields[i], Lenient(rules)) == Key(fields[i], rules)
      ensures Meaning(fields[i].val, Lenient(rules)) == Meaning(fields[i].val, rules)
    {
      assert fields[i].val < fields[i];
      LenientToken(fields[i].key, rules);
      LenientValue(fields[i].val, rules);
    }
  }

  lemma {:induction false} LenientBuild(fields: seq<Field>, rules: Rules, members: seq<Member>)
    requires forall i :: 0 <= i < |fields| ==>
      && Key(fields[i], Lenient(rules)) == Key(fields[i], rules)
      && Meaning(fields[i].val, Lenient(rules)) == Meaning(fields[i].val, rules)
    ensures FieldMeanings(fields, Lenient(rules), members) == FieldMeanings(fields, rules, members)
    decreases |fields|
  {
    hide Key, Meaning, Put;
    if fields != [] {
      LenientBuild(fields[1..], rules, Put(members, Key(fields[0], rules), Meaning(fields[0].val, rules)));
    }
  }

  // ---- the theorem ----------------------------------------------------------------------------------------------

  /** What the parser returns for a JSON value, and that it is admitted, once it returns anything. */
  lemma ReturnedIsRead(item: Item, opts: Options, v: Value)
    requires IsItem(item) && IsInteroperable(item.val)
    requires opts.failureMode != Ignore && opts.rules.encoding != Cesu8
    requires Parse(ItemText(item), opts) == Returned(v)
    ensures v == PhraseRead(item.val) && IsAdmitted(item.val, opts.rules) && MeetsDemands(v, opts.rules)
  {
    hide Parse, Stream, ItemText, IsValue, Meaning, Flatten, TreeOfPhrase, Depth, IsPhrase, IsInteroperable, PhraseRead;
    hide IsAdmitted, AreValid;
    var text, p, rules := ItemText(item), item.val, opts.rules;
    ParseIffGrammar(text, opts, v);
    var t, rest :| Derives(t, rest, text, rules, v);
    ItemStream(item, [], rules.comments);
    EmptyStream(rules.comments);
    assert text + [] == text;
    LenientValue(t, rules);
    EverythingIsAdmitted(p, Lenient(rules));
    PhraseMeans(p, Lenient(rules));
    ValuesEndTogether(t, rest, TreeOfPhrase(p), [], text, Lenient(rules));
    ValueHasValidTokens(t, rules);
    ValidTokensAdmit(p, rules);
    assert Derives(t, [], text, Lenient(rules), v);
    assert Derives(TreeOfPhrase(p), [], text, Lenient(rules), PhraseRead(p));
    GrammarIsUnambiguous(text, Lenient(rules), v, PhraseRead(p));
  }

  /** Of the JSON texts with unique names and paired surrogates, the parser accepts exactly those without a number that
      strict numbers misjudge and without an unescaped DEL that strict UTF-8 refuses, whose root and depth meet the
      demands; and it returns what is read. */
  lemma AcceptsExactly(item: Item, opts: Options)
    requires IsItem(item) && IsInteroperable(item.val)
    requires opts.failureMode != Ignore && opts.rules.encoding != Cesu8
    ensures Parse(ItemText(item), opts).Returned? <==>
      IsAdmitted(item.val, opts.rules) && MeetsDemands(PhraseRead(item.val), opts.rules)
    ensures Parse(ItemText(item), opts).Returned? ==> Parse(ItemText(item), opts) == Returned(PhraseRead(item.val))
  {
    hide Parse, ItemText, IsPhrase, IsInteroperable, IsAdmitted, MeetsDemands, PhraseRead;
    match Parse(ItemText(item), opts)
    case Returned(v) =>
      ReturnedIsRead(item, opts, v);
    case Thrown(_, _) =>
      if IsAdmitted(item.val, opts.rules) && MeetsDemands(PhraseRead(item.val), opts.rules) {
        ItemIsParsed(item, opts);
      }
  }

  /** In particular the strict preset. */
  lemma StrictPresetAccepts(item: Item)
    requires IsItem(item) && IsInteroperable(item.val)
    ensures Parse(ItemText(item), STRICT_OPTIONS).Returned? <==>
      && IsAdmitted(item.val, STRICT_OPTIONS.rules)
      && IsContainer(PhraseRead(item.val)) && Depth(PhraseRead(item.val)) < 20
  {
    hide Parse, ItemText, IsPhrase, IsInteroperable, IsAdmitted, PhraseRead, Depth;
    AcceptsExactly(item, STRICT_OPTIONS);
  }
}
