/** Splitting a text into tokens (tokenizer.cpp). */
module Tokenizing {
  import opened Bytes
  import opened StringCodec
  import opened TokenPatterns

  datatype Token = Token(text: bytes, kind: Kind, error: bool)

  function FirstToken(s: bytes): (t: Token)
    requires s != []
    ensures 1 <= |t.text| <= |s| && s == t.text + s[|t.text|..]
  {
    MatchLength(s);
    var m := MatchOf(s);
    Token(s[..m.length], m.kind, !m.complete)
  }

  lemma MatchedToken(s: bytes, m: Match)
    requires s != [] && m == MatchOf(s)
    ensures 1 <= m.length <= |s| && FirstToken(s) == Token(s[..m.length], m.kind, !m.complete)
  {
    MatchLength(s);
  }

  function Lex(s: bytes): seq<Token> {
    if s == [] then [] else [FirstToken(s)] + Lex(s[|FirstToken(s).text|..])
  }

  function Texts(ts: seq<Token>): bytes {
    if ts == [] then [] else ts[0].text + Texts(ts[1..])
  }

  /** The token texts, put together, are the input. */
  lemma {:induction false} LexTiles(s: bytes)
    ensures Texts(Lex(s)) == s
  {
    if s != [] {
      LexTiles(s[|FirstToken(s).text|..]);
    }
  }

  lemma {:induction false} TextsAppend(ts: seq<Token>, t: Token)
    ensures Texts(ts + [t]) == Texts(ts) + t.text
  {
    if ts == [] {
      assert Texts([t]) == t.text + Texts([]);
    } else {
      TextsAppend(ts[1..], t);
      assert (ts + [t])[1..] == ts[1..] + [t];
    }
  }

  /** A token that scanning some text can produce. */
  ghost predicate IsLexed(t: Token) { exists s :: s != [] && FirstToken(s) == t }

  /** The tokens handed out so far and the text that is left tile the input. */
  ghost predicate Tiles(input: bytes, emitted: seq<Token>, rest: bytes) {
    Texts(emitted) + rest == input && Lex(input) == emitted + Lex(rest)
  }

  lemma TilesNext(input: bytes, emitted: seq<Token>, rest: bytes)
    requires Tiles(input, emitted, rest) && rest != []
    ensures Tiles(input, emitted + [FirstToken(rest)], rest[|FirstToken(rest).text|..])
  {
    hide MatchOf, Texts, Lex, FirstToken;
    var t := FirstToken(rest);
    var after := rest[|t.text|..];
    LexStep(rest);
    TextsAppend(emitted, t);
    assert Texts(emitted) + (t.text + after) == Texts(emitted) + t.text + after;
    assert emitted + ([t] + Lex(after)) == emitted + [t] + Lex(after);
  }

  lemma LexStep(s: bytes)
    requires s != []
    ensures 1 <= |FirstToken(s).text| <= |s| && s == FirstToken(s).text + s[|FirstToken(s).text|..]
    ensures Lex(s) == [FirstToken(s)] + Lex(s[|FirstToken(s).text|..])
  {
    hide MatchOf;
  }

  class Tokenizer {
    const input: bytes
    var position: nat
    var current: Option<Token>
    ghost var emitted: seq<Token>

    /** The text after the current token. The position keeps moving when `Next` is called past the end. */
    ghost function Rest(): bytes
      reads this
    {
      var next := position + if current.Some? then |current.value.text| else 0;
      if next <= |input| then input[next..] else []
    }

    ghost predicate Valid()
      reads this
    {
      && Tiles(input, emitted, Rest())
      && (current.Some? ==> IsLexed(current.value))
    }

    constructor (text: bytes)
      ensures Valid() && input == text && Rest() == text && current == None && emitted == []
    {
      input, position, current, emitted := text, 0, None, [];
    }

    method Next() returns (ok: bool)
      requires Valid()
      modifies this
      ensures Valid()
      ensures ok <==> old(Rest()) != []
      ensures ok ==> current == Some(FirstToken(old(Rest())))
      ensures ok ==> Rest() == old(Rest())[|current.value.text|..] && emitted == old(emitted) + [current.value]
      ensures !ok ==> current == old(current) && Rest() == [] && emitted == old(emitted)
    {
      hide MatchOf, Tiles, FirstToken;
      ghost var rest := Rest();
      if current.Some? && current.value.text != [] {
        position := position + |current.value.text|;
      }
      assert rest == if position <= |input| then input[position..] else [];
      if position < |input| {
        var m := AttemptMatch(input[position..]);
        MatchedToken(rest, m);
        current := Some(Token(input[position..position + m.length], m.kind, !m.complete));
        assert current.value == FirstToken(rest);
        TilesNext(input, emitted, rest);
        emitted := emitted + [current.value];
        assert Rest() == rest[m.length..];
        return true;
      }
      return false;
    }
  }

  lemma {:induction false} BodyIsEscaped(s: bytes)
    requires StringBody(s).complete
    ensures var n := StringBody(s).length; n >= 1 && s[n - 1] == QUOTE && IsEscaped(s[..n - 1])
  {
    var n := StringBody(s).length;
    if s[0] == QUOTE {
    } else if s[0] == BACKSLASH {
      BodyIsEscaped(s[2..]);
      assert s[..n - 1][2..] == s[2..][..n - 3];
    } else {
      BodyIsEscaped(s[1..]);
      assert s[..n - 1][1..] == s[1..][..n - 2];
    }
  }

  /** Between the quotes of a string token every backslash has a partner, so that decoding never looks
      beyond the token. */
  lemma LexedString(t: Token)
    requires IsLexed(t) && t.kind == String && !t.error
    ensures |t.text| >= 2 && t.text[0] == QUOTE && t.text[|t.text| - 1] == QUOTE
    ensures IsEscaped(t.text[1..|t.text| - 1])
  {
    var s :| s != [] && FirstToken(s) == t;
    BodyIsEscaped(s[1..]);
    assert t.text[1..|t.text| - 1] == s[1..][..|t.text| - 2];
  }

  lemma LexedBoolean(t: Token)
    requires IsLexed(t) && t.kind == Boolean && !t.error
    ensures t.text == TRUE_TEXT || t.text == FALSE_TEXT
  {
    var s :| s != [] && FirstToken(s) == t;
    CommonPrefixSpec(s, TRUE_TEXT);
    CommonPrefixSpec(s, FALSE_TEXT);
  }
}
