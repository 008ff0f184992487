/** Texts whose only fault is that objects repeat keys: the last value of a key is kept, and each repetition is reported
    once. */
module RepeatedKeys {
  import opened Bytes
  import opened Json
  import opened Tokenizing
  import opened ParserSpec
  import opened Grammar
  import opened Recovery
  import opened RecoveryRuns
  import opened RecoveryDerivations
  import opened RecoveryTheorems
  import opened StrictConformance

  /** A derivation that is valid but for repeated keys. */
  ghost predicate IsValueButKeys(t: Tree, rules: Rules) {
    match t
    case Leaf(token) => IsScalarToken(token, rules)
    case ArrayTree(items, trailing) =>
      && (trailing ==> items != [] && rules.allowTrailing)
      && forall i :: 0 <= i < |items| ==> IsValueButKeys(items[i], rules)
    case ObjectTree(fields, trailing) =>
      && (trailing ==> fields != [] && rules.allowTrailing)
      && forall i :: 0 <= i < |fields| ==> IsKey(fields[i], rules) && IsValueButKeys(fields[i].val, rules)
  }

  /** The same derivation among those of all texts. */
  function NodeOf(t: Tree): Node
    decreases t, 1
  {
    match t
    case Leaf(token) => Scalar(token)
    case ArrayTree(items, trailing) => Array(EntriesOf(items, trailing), true)
    case ObjectTree(fields, trailing) => Object(SlotsOf(fields, trailing), Closed)
  }

  function CommaAfter(last: bool, trailing: bool): Option<Token> {
    if last && !trailing then None else Some(COMMA_TOKEN)
  }

  function EntriesOf(items: seq<Tree>, trailing: bool): (r: seq<Entry>)
    ensures |r| == |items|
    decreases items, 0
  {
    if items == [] then []
    else [Entry(NodeOf(items[0]), CommaAfter(|items| == 1, trailing))] + EntriesOf(items[1..], trailing)
  }

  function SlotsOf(fields: seq<Field>, trailing: bool): (r: seq<Slot>)
    ensures |r| == |fields|
    decreases fields, 0
  {
    if fields == [] then []
    else
      assert fields[0].val < fields[0];
      [Slot(fields[0].key, COLON_TOKEN, NodeOf(fields[0].val), CommaAfter(|fields| == 1, trailing))]
      + SlotsOf(fields[1..], trailing)
  }

  /** How many fields repeat the key of an earlier one. */
  function Repetitions(t: Tree, rules: Rules): nat
    decreases t, 1
  {
    match t
    case Leaf(_) => 0
    case ArrayTree(items, _) => RepetitionsInItems(items, rules)
    case ObjectTree(fields, _) => RepetitionsInFields(fields, {}, rules)
  }

  function RepetitionsInItems(items: seq<Tree>, rules: Rules): nat
    decreases items, 0
  {
    if items == [] then 0 else Repetitions(items[0], rules) + RepetitionsInItems(items[1..], rules)
  }

  function RepetitionsInFields(fields: seq<Field>, seen: set<bytes>, rules: Rules): nat
    decreases fields, 0
  {
    if fields == [] then 0
    else
      assert fields[0].val < fields[0];
      (if Key(fields[0], rules) in seen then 1 else 0) + Repetitions(fields[0].val, rules)
      + RepetitionsInFields(fields[1..], seen + {Key(fields[0], rules)}, rules)
  }

  predicate OnlyRepeats(fs: seq<Fault>, n: nat) {
    |fs| == n && forall i :: 0 <= i < |fs| ==> fs[i].reason == DuplicateKey
  }

  lemma RepeatsConcat(a: seq<Fault>, n: nat, b: seq<Fault>, m: nat)
    requires OnlyRepeats(a, n) && OnlyRepeats(b, m)
    ensures OnlyRepeats(a + b, n + m)
  {
  }

  lemma {:induction false} TreeIsNode(t: Tree, rules: Rules, after: seq<Token>)
    requires IsValueButKeys(t, rules)
    ensures IsNode(NodeOf(t)) && IsOk(NodeOf(t)) && Tokens(NodeOf(t)) == Flatten(t)
    ensures Kept(NodeOf(t), rules) == Meaning(t, rules)
    ensures OnlyRepeats(Faults(NodeOf(t), rules, |after|), Repetitions(t, rules))
    decreases t, 1
  {
    hide EntriesOf, SlotsOf, EntriesTokens, SlotsTokens, FlattenItems, FlattenFields, ItemsKept, FieldsKept, Decoded;
    hide ItemMeanings, FieldMeanings, RepetitionsInItems, RepetitionsInFields, EntriesFaults, SlotsFaults, NumberValue;
    hide OnlyRepeats;
    match t
    case Leaf(token) =>
      NoRepeats();
    case ArrayTree(items, trailing) =>
      ItemsAreEntries(items, trailing, false, rules, after);
      assert AreEntries(EntriesOf(items, trailing), true);
    case ObjectTree(fields, trailing) =>
      FieldsAreSlots(fields, trailing, rules, []);
      FieldsOnlyRepeat(fields, trailing, false, {}, rules, after);
      assert AreSlots(SlotsOf(fields, trailing), Closed);
  }

  lemma NoRepeats()
    ensures OnlyRepeats([], 0)
  {
  }

  lemma EntriesOfStep(items: seq<Tree>, trailing: bool)
    ensures EntriesOf([], trailing) == []
    ensures items != [] ==>
      EntriesOf(items, trailing)
      == [Entry(NodeOf(items[0]), CommaAfter(|items| == 1, trailing))] + EntriesOf(items[1..], trailing)
    ensures items != [] ==> EntriesOf(items, trailing)[1..] == EntriesOf(items[1..], trailing)
  {
    hide NodeOf;
  }

  lemma ValueStarts(t: Tree, rules: Rules)
    requires IsValueButKeys(t, rules)
    ensures StartsValue(Flatten(t)[0])
  {
  }

  lemma NoEntries(closed: bool, trailing: bool, rules: Rules, after: nat)
    ensures AreEntries([], closed) && EntriesTokens([], true) == [CLOSE_ARRAY] && ItemsKept([], rules) == []
    ensures EntriesFaults([], true, trailing, rules, after)
         == TrailingFaults(trailing, rules, TrailingCommaInArray, after)
  {
  }

  /** The items, where `comma` says that a comma comes before them. */
  lemma {:induction false} ItemsAreEntries(
    items: seq<Tree>, trailing: bool, comma: bool, rules: Rules, after: seq<Token>)
    requires forall i :: 0 <= i < |items| ==> IsValueButKeys(items[i], rules)
    requires (trailing ==> rules.allowTrailing) && (comma && items == [] ==> rules.allowTrailing)
    ensures var es := EntriesOf(items, trailing);
      && AreEntries(es, true) && EntriesTokens(es, true) == FlattenItems(items, trailing)
      && ItemsKept(es, rules) == ItemMeanings(items, rules)
      && OnlyRepeats(EntriesFaults(es, true, comma, rules, |after|), RepetitionsInItems(items, rules))
    decreases items, 0
  {
    hide IsValueButKeys, NodeOf, IsNode, IsOk, Tokens, Flatten, Kept, Meaning, Faults, Repetitions, OnlyRepeats;
    hide AreEntries, EntriesOf, EntriesTokens, EntriesFaults, FlattenItems, ItemsKept;
    NoRepeats();
    EntriesOfStep(items, trailing);
    FlattenItemsStep(items, trailing);
    NoEntries(true, comma, rules, |after|);
    if items != [] {
      var n, rest := NodeOf(items[0]), EntriesOf(items[1..], trailing);
      var es := EntriesOf(items, trailing);
      var e := es[0];
      var tail := EntriesTokens(rest, true) + after;
      var fs := Faults(n, rules, |Opt(e.after) + tail|);
      TreeIsNode(items[0], rules, Opt(e.after) + tail);
      ValueStarts(items[0], rules);
      ItemsKeptStep(es, rules, []);
      assert [] + ItemsKept(es, rules) == ItemsKept(es, rules);
      assert [] + [Kept(n, rules)] + ItemsKept(rest, rules) == [Kept(n, rules)] + ItemsKept(rest, rules);
      EntriesFaultsStep(es, true, comma, rules, after);
      FlattenItemsStep(items[1..], trailing);
      if e.after.None? {
        EntriesOfStep(items[1..], trailing);
        assert items[1..] == [];
        assert fs + [] == fs;
      } else {
        ItemsAreEntries(items[1..], trailing, true, rules, after);
        RepeatsConcat(fs, Repetitions(items[0], rules), EntriesFaults(rest, true, true, rules, |after|),
                      RepetitionsInItems(items[1..], rules));
      }
      EntryJoins(e, rest, true, []);
      assert EntriesTokens(es, true) + [] == EntriesTokens(es, true);
    }
  }

  lemma SlotsOfStep(fields: seq<Field>, trailing: bool)
    ensures SlotsOf([], trailing) == []
    ensures fields != [] ==>
      SlotsOf(fields, trailing)
      == [Slot(fields[0].key, COLON_TOKEN, NodeOf(fields[0].val), CommaAfter(|fields| == 1, trailing))]
         + SlotsOf(fields[1..], trailing)
    ensures fields != [] ==> SlotsOf(fields, trailing)[1..] == SlotsOf(fields[1..], trailing)
  {
    hide NodeOf;
  }

  lemma NoSlots(seen: set<bytes>, trailing: bool, rules: Rules, after: nat)
    ensures AreSlots([], Closed) && SlotsTokens([], Closed) == [CLOSE_OBJECT]
    ensures SlotsFaults([], Closed, seen, trailing, rules, after)
         == TrailingFaults(trailing, rules, TrailingCommaInObject, after)
  {
  }

  lemma GoodKey(f: Field, rules: Rules, left: nat)
    requires IsKey(f, rules)
    ensures KeyKept(f.key, rules) == Key(f, rules) && KeyFaults(f.key, rules, left) == []
  {
    hide Decoded;
  }

  lemma FieldMeaningsStep(fields: seq<Field>, rules: Rules, members: seq<Member>)
    ensures FieldMeanings([], rules, members) == members
    ensures fields != [] ==>
      FieldMeanings(fields, rules, members)
      == FieldMeanings(fields[1..], rules, Put(members, Key(fields[0], rules), Meaning(fields[0].val, rules)))
  {
    hide Key, Meaning, Put;
  }

  lemma {:induction false} FieldsAreSlots(fields: seq<Field>, trailing: bool, rules: Rules, members: seq<Member>)
    requires forall i :: 0 <= i < |fields| ==> IsKey(fields[i], rules) && IsValueButKeys(fields[i].val, rules)
    ensures var ss := SlotsOf(fields, trailing);
      && AreSlots(ss, Closed) && SlotsTokens(ss, Closed) == FlattenFields(fields, trailing)
      && FieldsKept(ss, rules, members) == FieldMeanings(fields, rules, members)
    decreases fields, 0
  {
    hide IsValueButKeys, NodeOf, IsNode, IsOk, Tokens, Flatten, Kept, Meaning, Put, AreSlots, SlotsOf, SlotsTokens;
    hide FlattenFields, FieldsKept, Key, KeyKept, KeyFaults, FieldMeanings, Faults;
    SlotsOfStep(fields, trailing);
    FlattenFieldsStep(fields, trailing);
    NoSlots({}, false, rules, 0);
    FieldsKeptStep(SlotsOf(fields, trailing), rules, members);
    FieldMeaningsStep(fields, rules, members);
    if fields != [] {
      var f, ss, rest := fields[0], SlotsOf(fields, trailing), SlotsOf(fields[1..], trailing);
      assert f.val < fields[0];
      GoodKey(f, rules, 0);
      TreeIsNode(f.val, rules, []);
      FlattenFieldsStep(fields[1..], trailing);
      SlotsOfStep(fields[1..], trailing);
      FieldsAreSlots(fields[1..], trailing, rules, Put(members, Key(f, rules), Meaning(f.val, rules)));
      SlotJoins(ss[0], rest, Closed, []);
      SlotsTextSplit(ss, ss[0], rest);
    }
  }

  /** A field without problems of its own. */
  lemma GoodField(f: Field, rest: seq<Slot>, next: Option<Token>, comma: bool, seen: set<bytes>, rules: Rules,
                  after: seq<Token>)
    requires IsKey(f, rules) && IsOk(NodeOf(f.val)) && next in {None, Some(COMMA_TOKEN)}
    ensures var (n, key) := (NodeOf(f.val), Key(f, rules));
      var ts := Opt(next) + (SlotsTokens(rest, Closed) + after);
      SlotsFaults([Slot(f.key, COLON_TOKEN, n, next)] + rest, Closed, seen, comma, rules, |after|)
      == Faults(n, rules, |ts|)
         + ((if key in seen then [Fault(DuplicateKey, OnToken(|ts|))] else [])
            + if next.None? then [] else SlotsFaults(rest, Closed, seen + {key}, true, rules, |after|))
  {
    hide NodeOf, IsOk, Tokens, Faults, SlotsTokens, SlotsFaults, Key, KeyKept, KeyFaults, IsKey;
    var n := NodeOf(f.val);
    var ss := [Slot(f.key, COLON_TOKEN, n, next)] + rest;
    var ts := Opt(next) + (SlotsTokens(rest, Closed) + after);
    assert ss[1..] == rest;
    GoodKey(f, rules, |[COLON_TOKEN] + (Tokens(n) + ts)|);
    SlotsFaultsStep(ss, Closed, seen, comma, rules, after);
    assert [] + [] + Faults(n, rules, |ts|) == Faults(n, rules, |ts|);
  }

  /** `comma` says that a comma comes before the fields. */
  lemma {:induction false} FieldsOnlyRepeat(
    fields: seq<Field>, trailing: bool, comma: bool, seen: set<bytes>, rules: Rules, after: seq<Token>)
    requires forall i :: 0 <= i < |fields| ==> IsKey(fields[i], rules) && IsValueButKeys(fields[i].val, rules)
    requires (trailing ==> rules.allowTrailing) && (comma && fields == [] ==> rules.allowTrailing)
    ensures OnlyRepeats(SlotsFaults(SlotsOf(fields, trailing), Closed, seen, comma, rules, |after|),
                        RepetitionsInFields(fields, seen, rules))
    decreases fields, 0
  {
    hide IsValueButKeys, NodeOf, IsNode, IsOk, Tokens, Flatten, Kept, Faults, Repetitions, OnlyRepeats, SlotsOf;
    hide SlotsTokens, SlotsFaults, Key, Meaning, IsKey;
    NoRepeats();
    SlotsOfStep(fields, trailing);
    NoSlots(seen, comma, rules, |after|);
    if fields != [] {
      var f, rest := fields[0], SlotsOf(fields[1..], trailing);
      var n, key, next := NodeOf(f.val), Key(f, rules), CommaAfter(|fields| == 1, trailing);
      var ts := Opt(next) + (SlotsTokens(rest, Closed) + after);
      assert f.val < fields[0];
      TreeIsNode(f.val, rules, ts);
      GoodField(f, rest, next, comma, seen, rules, after);
      OneRepeat(key in seen, |ts|);
      var dup := if key in seen then [Fault(DuplicateKey, OnToken(|ts|))] else [];
      var gs := if next.None? then [] else SlotsFaults(rest, Closed, seen + {key}, true, rules, |after|);
      if next.Some? {
        FieldsOnlyRepeat(fields[1..], trailing, true, seen + {key}, rules, after);
      }
      RepeatsConcat(dup, |dup|, gs, RepetitionsInFields(fields[1..], seen + {key}, rules));
      RepeatsConcat(Faults(n, rules, |ts|), Repetitions(f.val, rules), dup + gs,
                    |dup| + RepetitionsInFields(fields[1..], seen + {key}, rules));
    }
  }

  lemma OneRepeat(repeated: bool, left: nat)
    ensures var dup := if repeated then [Fault(DuplicateKey, OnToken(left))] else []; OnlyRepeats(dup, |dup|)
  {
  }

  lemma SlotsTextSplit(ss: seq<Slot>, s: Slot, rest: seq<Slot>)
    requires SlotsTokens(ss, Closed) + []
      == [s.key] + ([s.delimiter] + (Tokens(s.val) + (Opt(s.after) + (SlotsTokens(rest, Closed) + []))))
    ensures SlotsTokens(ss, Closed) == [s.key, s.delimiter] + Tokens(s.val) + (Opt(s.after) + SlotsTokens(rest, Closed))
  {
    hide SlotsTokens, Tokens, Opt;
    var a, b := Opt(s.after), SlotsTokens(rest, Closed);
    assert SlotsTokens(ss, Closed) + [] == SlotsTokens(ss, Closed) && b + [] == b;
    assert [s.key] + ([s.delimiter] + (Tokens(s.val) + (a + b))) == [s.key, s.delimiter] + Tokens(s.val) + (a + b);
  }

  // ---- the theorem ----------------------------------------------------------------------------------------------

  /** A text that is valid but for repeated keys: under `on_error::ignore` its meaning is returned, in which the last
      value of a key counts; under `on_error::collect_all` it is the partial result, and each repetition is a
      problem. */
  lemma RepeatedKeysAreReplaced(t: Tree, rest: seq<Token>, text: bytes, limit: nat, rules: Rules)
    requires IsValueButKeys(t, rules) && Stream(text, true) == Flatten(t) + rest && CommentsAreFine(text, rules)
    ensures Parse(text, Options(Ignore, limit, rules)) == Returned(Meaning(t, rules))
    ensures var (r, n) := (Parse(text, Options(CollectAll, limit, rules)), Repetitions(t, rules));
      && (n > 0 ==> r.Thrown? && r.partial == Meaning(t, rules))
      && (n > 0 && rules.maxDepth == 0 ==>
            && |r.problems| == (if limit <= n then limit else n)
            && forall i :: 0 <= i < |r.problems| ==> r.problems[i].reason == DuplicateKey)
  {
    hide IsValueButKeys, NodeOf, IsNode, IsOk, Tokens, Flatten, Kept, Meaning, Faults, Repetitions, Stream, Parse;
    hide CommentsAreFine, IsAtPlace, AllFaults;
    var n := NodeOf(t);
    TreeIsNode(t, rules, rest);
    assert Starts(n, rest, text);
    ParseRecovers(n, rest, text, Options(Ignore, limit, rules));
    if Repetitions(t, rules) > 0 {
      OwnFaultsOnly(n, rest, rules);
      ParseRecovers(n, rest, text, Options(CollectAll, limit, rules));
    }
  }

  lemma OwnFaultsOnly(n: Node, rest: seq<Token>, rules: Rules)
    requires IsOk(n) && Faults(n, rules, |rest|) != []
    ensures AllFaults(n, rest, rules) != []
    ensures rules.maxDepth == 0 ==> AllFaults(n, rest, rules) == Faults(n, rules, |rest|)
  {
    hide IsOk, Faults, Kept, CountDeep;
    var fs := Faults(n, rules, |rest|);
    var deep := if rules.maxDepth > 0 then CountDeep(Kept(n, rules), 0, rules.maxDepth) else 0;
    assert fs + [] == fs;
    assert AllFaults(n, rest, rules) == fs + [] + [] + seq(deep, _ => Fault(TooDeep, OnToken(|rest|)));
  }
}
