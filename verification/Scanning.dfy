/** What the scanner makes of a text, in terms of its bytes. */
module Scanning {
  import opened Bytes
  import opened TokenPatterns
  import opened NumberGrammar
  import opened Tokenizing

  /** The kind of a token by its first byte. */
  function KindOf(c: byte): Kind {
    if c == '[' as int then ArrayBegin
    else if c == ']' as int then ArrayEnd
    else if c == '{' as int then ObjectBegin
    else if c == '}' as int then ObjectEnd
    else if c == ':' as int then KeyDelimiter
    else if c == ',' as int then Separator
    else if c == 't' as int || c == 'f' as int then Boolean
    else if c == 'n' as int then Kind.Null
    else if c == '-' as int || '0' as int <= c <= '9' as int then Number
    else if c == '"' as int then String
    else if c in {0x20, 0x09, 0x0A, 0x0D} then Whitespace
    else if c == '/' as int then Comment
    else Unknown
  }

  /** The first token of a text, and whether it is an error. Literals go as far as they agree, numbers as far as some
      number goes on, strings to the first quote that is not escaped, comments to the first asterisk and slash. */
  ghost predicate IsScanned(s: bytes, n: nat, error: bool)
    requires 1 <= n <= |s|
  {
    match KindOf(s[0])
    case Boolean => IsLiteral(s, n, error, if s[0] == 't' as int then Ascii("true") else Ascii("false"))
    case Null => IsLiteral(s, n, error, Ascii("null"))
    case Number =>
      IsViable(s[..n]) && (forall m :: n < m <= |s| ==> !IsViable(s[..m])) && (error <==> !IsNumber(s[..n]))
    case String =>
      var body := s[1..];
      if error then n == |s| - Backslashes(body, |body|) % 2 && forall i :: 0 <= i < |body| ==> !IsOpenQuote(body, i)
      else n >= 2 && IsOpenQuote(body, n - 2) && forall i :: 0 <= i < n - 2 ==> !IsOpenQuote(body, i)
    case Whitespace =>
      !error && (forall i :: 0 <= i < n ==> KindOf(s[i]) == Whitespace) && (n < |s| ==> KindOf(s[n]) != Whitespace)
    case Comment =>
      if |s| == 1 || s[1] != '*' as int then error && n == 1
      else if error then n == |s| && forall i :: 2 <= i < |s| ==> !IsCommentEnd(s, i)
      else n >= 4 && IsCommentEnd(s, n - 2) && forall i :: 2 <= i < n - 2 ==> !IsCommentEnd(s, i)
    case Unknown => error && n == 1
    case _ => !error && n == 1
  }

  predicate IsLiteral(s: bytes, n: nat, error: bool, literal: bytes)
    requires n <= |s|
  {
    && n <= |literal| && s[..n] == literal[..n] && (error <==> n < |literal|)
    && (error && n < |s| ==> s[n] != literal[n])
  }

  lemma {:induction false} CommonPrefixIs(s: bytes, literal: bytes)
    ensures var n := CommonPrefix(s, literal);
      && n <= |s| && n <= |literal| && s[..n] == literal[..n]
      && (n < |s| && n < |literal| ==> s[n] != literal[n])
  {
    if s != [] && literal != [] && s[0] == literal[0] {
      CommonPrefixIs(s[1..], literal[1..]);
      var n := CommonPrefix(s, literal);
      assert s[..n] == [s[0]] + s[1..][..n - 1] && literal[..n] == [literal[0]] + literal[1..][..n - 1];
    }
  }

  lemma LiteralIsScanned(s: bytes, literal: bytes)
    requires s != []
    ensures CommonPrefix(s, literal) <= |s| && IsLiteral(s, CommonPrefix(s, literal), !(literal <= s), literal)
  {
    CommonPrefixIs(s, literal);
    CommonPrefixSpec(s, literal);
  }

  lemma {:induction false} SpacesEnd(s: bytes)
    ensures var n := SpaceLength(s);
      && (forall i :: 0 <= i < n ==> KindOf(s[i]) == Whitespace) && (n < |s| ==> KindOf(s[n]) != Whitespace)
  {
    if s != [] && IsSpace(s[0]) {
      SpacesEnd(s[1..]);
      assert forall i :: 1 <= i < SpaceLength(s) ==> s[i] == s[1..][i - 1];
    }
  }

  lemma SpansAreScanned(s: bytes)
    requires s != []
    ensures KindOf(s[0]) == String ==>
      MatchOf(s) == SpanMatch(String, Longer(StringBody(s[1..]), 1))
    ensures KindOf(s[0]) == Whitespace ==> MatchOf(s) == Match(true, Whitespace, SpaceLength(s))
    ensures KindOf(s[0]) == Comment ==> MatchOf(s) == SpanMatch(Comment, CommentSpan(s))
    ensures KindOf(s[0]) == Number ==> MatchOf(s) == Match(Accepting(RunState(s, Start)), Number, RunLength(s, Start))
    ensures KindOf(s[0]) == Kind.Null ==> MatchOf(s) == LiteralMatch(s, Kind.Null, Ascii("null"))
    ensures KindOf(s[0]) == Boolean ==>
      MatchOf(s) == LiteralMatch(s, Boolean, if s[0] == 't' as int then Ascii("true") else Ascii("false"))
    ensures KindOf(s[0]) !in {String, Whitespace, Comment, Number, Kind.Null, Boolean} ==>
      MatchOf(s) == Match(KindOf(s[0]) != Unknown, KindOf(s[0]), 1)
  {
    hide StringBody, SpaceLength, CommentSpan, RunState, RunLength, CommonPrefix;
    assert Ascii("null") == NULL_TEXT && Ascii("true") == TRUE_TEXT && Ascii("false") == FALSE_TEXT;
  }

  lemma LettersAreScanned(s: bytes)
    requires s != [] && (KindOf(s[0]) == Boolean || KindOf(s[0]) == Kind.Null)
    ensures 1 <= MatchOf(s).length <= |s| && IsScanned(s, MatchOf(s).length, !MatchOf(s).complete)
  {
    hide CommonPrefix, MatchOf, IsLiteral;
    MatchedToken(s, MatchOf(s));
    SpansAreScanned(s);
    LiteralIsScanned(s, Ascii("null"));
    LiteralIsScanned(s, if s[0] == 't' as int then Ascii("true") else Ascii("false"));
  }

  lemma NumbersAreScanned(s: bytes)
    requires s != [] && KindOf(s[0]) == Number
    ensures 1 <= MatchOf(s).length <= |s| && IsScanned(s, MatchOf(s).length, !MatchOf(s).complete)
  {
    hide RunState, RunLength, MatchOf, IsViable, IsNumber, Accepting;
    MatchedToken(s, MatchOf(s));
    SpansAreScanned(s);
    LongestViablePrefix(s);
  }

  lemma StringsAreScanned(s: bytes)
    requires s != [] && KindOf(s[0]) == String
    ensures 1 <= MatchOf(s).length <= |s| && IsScanned(s, MatchOf(s).length, !MatchOf(s).complete)
  {
    hide StringBody, MatchOf, IsOpenQuote, Backslashes;
    MatchedToken(s, MatchOf(s));
    SpansAreScanned(s);
    StringEnds(s[1..]);
  }

  lemma GapsAreScanned(s: bytes)
    requires s != [] && KindOf(s[0]) in {Whitespace, Comment}
    ensures 1 <= MatchOf(s).length <= |s| && IsScanned(s, MatchOf(s).length, !MatchOf(s).complete)
  {
    hide SpaceLength, CommentSpan, MatchOf, IsCommentEnd;
    MatchedToken(s, MatchOf(s));
    SpansAreScanned(s);
    if KindOf(s[0]) == Whitespace {
      SpacesEnd(s);
    } else {
      CommentIsScanned(s);
    }
  }

  /** The first token of every text. */
  lemma FirstTokenIsScanned(s: bytes)
    requires s != []
    ensures var t := FirstToken(s);
      && t.text == s[..|t.text|] && t.kind == KindOf(s[0]) && IsScanned(s, |t.text|, t.error)
  {
    hide MatchOf, FirstToken;
    MatchedToken(s, MatchOf(s));
    SpansAreScanned(s);
    var kind := KindOf(s[0]);
    hide KindOf;
    if kind == Boolean || kind == Kind.Null {
      LettersAreScanned(s);
    } else if kind == Number {
      NumbersAreScanned(s);
    } else if kind == String {
      StringsAreScanned(s);
    } else if kind == Whitespace || kind == Comment {
      GapsAreScanned(s);
    }
  }

  lemma CommentIsScanned(s: bytes)
    requires s != [] && s[0] == SLASH
    ensures |s| == 1 || s[1] != ASTERISK ==> CommentSpan(s) == Span(false, 1)
    ensures |s| >= 2 && s[1] == ASTERISK ==>
      var (complete, n) := (CommentSpan(s).complete, CommentSpan(s).length);
      if complete then n >= 4 && IsCommentEnd(s, n - 2) && forall i :: 2 <= i < n - 2 ==> !IsCommentEnd(s, i)
      else n == |s| && forall i :: 2 <= i < |s| ==> !IsCommentEnd(s, i)
  {
    hide CommentBody;
    if |s| >= 2 && s[1] == ASTERISK {
      CommentEnds(s);
    }
  }
}
