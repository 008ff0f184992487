/** What the options say about comments and trailing commas, and what the two presets choose. */
module Policies {
  import opened Bytes
  import opened Json
  import opened TokenPatterns
  import opened Tokenizing
  import opened ParserSpec
  import opened Grammar
  import opened GrammarTheorems
  import opened Recovery
  import opened RecoveryRuns
  import opened RecoveryTheorems
  import opened Rfc8259
  import opened Conformance

  /** A slash, an asterisk, and everything to the first asterisk and slash after them. */
  predicate IsComment(s: bytes) {
    && |s| >= 4 && s[0] == SLASH && s[1] == ASTERISK && IsCommentEnd(s, |s| - 2)
    && forall i :: 2 <= i < |s| - 2 ==> !IsCommentEnd(s, i)
  }

  lemma CommentIsToken(comment: bytes, more: bytes)
    requires IsComment(comment)
    ensures FirstToken(comment + more) == Token(comment, Comment, false)
  {
    hide CommentSpan, MatchOf, FirstToken;
    var s, k := comment + more, |comment| - 2;
    CommentMatch(s);
    CommentEnds(s);
    assert forall i :: 0 <= i <= k ==> (IsCommentEnd(s, i) <==> IsCommentEnd(comment, i));
    MatchedToken(s, MatchOf(s));
    assert s[..|comment|] == comment;
  }

  lemma CommentMatch(s: bytes)
    requires s != [] && s[0] == SLASH
    ensures MatchOf(s) == SpanMatch(Comment, CommentSpan(s))
  {
  }

  /** A comment in front of a text changes nothing if comments are permitted; otherwise the text is refused. */
  lemma CommentInFront(comment: bytes, more: bytes, v: Value, opts: Options)
    requires IsComment(comment) && opts.failureMode != Ignore
    ensures Parse(comment + more, opts) == Returned(v) <==> opts.rules.comments && Parse(more, opts) == Returned(v)
  {
    hide Parse, FirstToken, Stream, IsComment, IsValue, Meaning, Depth, OnlyNuls;
    var text, comments := comment + more, opts.rules.comments;
    CommentIsToken(comment, more);
    StreamUnfold(text, comments);
    assert comment != [] by { CommentIsLong(comment); }
    assert text[|comment|..] == more;
    ParseIffGrammar(text, opts, v);
    ParseIffGrammar(more, opts, v);
    if comments {
      assert Stream(text, comments) == [] + Stream(more, comments) == Stream(more, comments);
      SameStreamSameGrammar(text, more, opts.rules, v);
    } else if InGrammar(text, opts.rules, v) {
      var t, rest :| Derives(t, rest, text, opts.rules, v);
      StartsSignificantly(t, rest, opts.rules);
    }
  }

  lemma StartsSignificantly(t: Tree, rest: seq<Token>, rules: Rules)
    requires IsValue(t, rules)
    ensures IsSignificant((Flatten(t) + rest)[0])
  {
    hide IsValue, Flatten;
    ValueToken(t, rules);
  }

  lemma CommentIsLong(comment: bytes)
    requires IsComment(comment)
    ensures comment != []
  {
  }

  lemma SameStreamSameGrammar(a: bytes, b: bytes, rules: Rules, v: Value)
    requires Stream(a, rules.comments) == Stream(b, rules.comments)
    ensures InGrammar(a, rules, v) <==> InGrammar(b, rules, v)
  {
    hide Stream, IsValue, Meaning, Depth, OnlyNuls, Flatten;
    if t, rest :| Derives(t, rest, a, rules, v) {
      assert Derives(t, rest, b, rules, v);
    }
    if t, rest :| Derives(t, rest, b, rules, v) {
      assert Derives(t, rest, a, rules, v);
    }
  }

  /** A comma after the last item of an array is a problem exactly if the rules do not permit it. */
  lemma CommaAtTheEnd(x: Token, text: bytes, opts: Options)
    requires Stream(text, true) == [OPEN_ARRAY, x, COMMA_TOKEN, CLOSE_ARRAY] && CommentsAreFine(text, opts.rules)
    requires IsScalarToken(x, opts.rules) && opts.failureMode != Ignore && opts.rules.maxDepth != 1
    ensures var r := Parse(text, opts);
      if opts.rules.allowTrailing then r == Returned(Arr([Kept(Scalar(x), opts.rules)])) else r.Thrown?
  {
    hide Parse, Stream, Decoded, NumberValue, HasLeadingZero, EntriesTokens, ItemsKept, CommentsAreFine, AllFaults;
    hide IsAtPlace;
    var rules := opts.rules;
    var n := Array([Entry(Scalar(x), Some(COMMA_TOKEN))], true);
    OneEntry(Scalar(x), Some(COMMA_TOKEN), true, rules);
    assert Tokens(n) + [] == Stream(text, true);
    assert Starts(n, [], text);
    CommaFault(x, rules);
    ParseRecovers(n, [], text, opts);
  }

  lemma CommaFault(x: Token, rules: Rules)
    requires IsScalarToken(x, rules) && rules.maxDepth != 1
    ensures var n := Array([Entry(Scalar(x), Some(COMMA_TOKEN))], true);
      AllFaults(n, [], rules) == if rules.allowTrailing then [] else [Fault(TrailingCommaInArray, OnToken(0))]
  {
    hide Decoded, HasLeadingZero, EntriesTokens, ItemsKept;
    var e, v := Entry(Scalar(x), Some(COMMA_TOKEN)), Kept(Scalar(x), rules);
    var n := Array([e], true);
    var own := TrailingFaults(true, rules, TrailingCommaInArray, 0);
    OneEntry(Scalar(x), Some(COMMA_TOKEN), true, rules);
    assert [e][1..] == [];
    assert Faults(n, rules, 0) == own by {
      EntriesFaultsStep([e], true, false, rules, []);
      assert EntriesFaults([], true, true, rules, 0) == own;
      assert ScalarFaults(x, rules, |Opt(e.after) + (EntriesTokens([], true) + [])|) == [];
      assert [] + own == own;
    }
    assert CountDeepItems([v], 1, rules.maxDepth) == 0;
    assert CountDeep(Arr([v]), 0, rules.maxDepth) == 0;
    assert own + [] == own;
    assert AllFaults(n, [], rules) == own + [] + [] + seq(0, _ => Fault(TooDeep, AtEnd(0)));
  }

  /** The default options permit both, the strict ones neither. */
  lemma PresetsChoose(comment: bytes, more: bytes, v: Value, x: Token, text: bytes)
    requires IsComment(comment)
    requires Stream(text, true) == [OPEN_ARRAY, x, COMMA_TOKEN, CLOSE_ARRAY] == Stream(text, false)
    requires IsScalarToken(x, DEFAULT_OPTIONS.rules) && IsScalarToken(x, STRICT_OPTIONS.rules)
    ensures Parse(comment + more, DEFAULT_OPTIONS) == Returned(v) <==> Parse(more, DEFAULT_OPTIONS) == Returned(v)
    ensures Parse(comment + more, STRICT_OPTIONS) != Returned(v)
    ensures Parse(text, DEFAULT_OPTIONS) == Returned(Arr([Kept(Scalar(x), DEFAULT_OPTIONS.rules)]))
    ensures Parse(text, STRICT_OPTIONS).Thrown?
  {
    hide Parse, Stream, IsScalarToken, Kept, IsComment;
    CommentInFront(comment, more, v, DEFAULT_OPTIONS);
    CommentInFront(comment, more, v, STRICT_OPTIONS);
    CommaAtTheEnd(x, text, DEFAULT_OPTIONS);
    CommaAtTheEnd(x, text, STRICT_OPTIONS);
  }

  /** Both stop at the first problem. */
  lemma PresetsStopAtOnce(text: bytes)
    ensures Parse(text, DEFAULT_OPTIONS).Thrown? ==>
      |Parse(text, DEFAULT_OPTIONS).problems| == 1 && Parse(text, DEFAULT_OPTIONS).partial == Value.Null
    ensures Parse(text, STRICT_OPTIONS).Thrown? ==>
      |Parse(text, STRICT_OPTIONS).problems| == 1 && Parse(text, STRICT_OPTIONS).partial == Value.Null
  {
    hide ParseAll;
  }

  /** Where the whole text is to be parsed, nothing but NUL bytes may follow the value. */
  lemma DataBehindIsRefused(t: Tree, rest: seq<Token>, text: bytes, opts: Options)
    requires IsValue(t, opts.rules) && Stream(text, opts.rules.comments) == Flatten(t) + rest && !OnlyNuls(rest)
    requires opts.rules.completeParse && opts.failureMode != Ignore
    ensures Parse(text, opts).Thrown?
  {
    hide Parse, Stream, IsValue, Meaning, Flatten, Depth, OnlyNuls;
    if Parse(text, opts).Returned? {
      var v := Parse(text, opts).val;
      ParseIffGrammar(text, opts, v);
      var u, more :| Derives(u, more, text, opts.rules, v);
      ValuesEndTogether(t, rest, u, more, text, opts.rules);
    }
  }

  /** Both presets parse the whole text. */
  lemma PresetsReadToTheEnd(t: Tree, rest: seq<Token>, text: bytes, opts: Options)
    requires opts in {DEFAULT_OPTIONS, STRICT_OPTIONS}
    requires IsValue(t, opts.rules) && Stream(text, opts.rules.comments) == Flatten(t) + rest && !OnlyNuls(rest)
    ensures Parse(text, opts).Thrown?
  {
    hide Parse, Stream, IsValue, Flatten, OnlyNuls;
    DataBehindIsRefused(t, rest, text, opts);
  }

  /** Only the strict one minds an unescaped DEL. */
  lemma StrictMindsDel(cs: seq<Char>)
    ensures IsAdmitted(StringPhrase(cs), DEFAULT_OPTIONS.rules)
    ensures IsAdmitted(StringPhrase(cs), STRICT_OPTIONS.rules) <==> !HasDel(cs)
  {
  }
}
