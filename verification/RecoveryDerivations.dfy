/** Every text with a significant token has a derivation. */
module RecoveryDerivations {
  import opened Bytes
  import opened TokenPatterns
  import opened Tokenizing
  import opened Grammar
  import opened GrammarTheorems
  import opened Recovery
  import opened RecoveryRuns

  ghost predicate AreTokens(ts: seq<Token>) { forall i :: 0 <= i < |ts| ==> IsLexed(ts[i]) && IsSignificant(ts[i]) }

  lemma FirstOfSum(a: seq<Token>, b: seq<Token>)
    requires a != []
    ensures (a + b)[0] == a[0] && (a + b)[|a|..] == b
  {
  }

  lemma DeriveSkipped(ts: seq<Token>) returns (skipped: seq<Token>, stop: Option<Token>, rest: seq<Token>)
    ensures ts == skipped + Opt(stop) + rest && forall i :: 0 <= i < |skipped| ==> IsSkippable(skipped[i])
    ensures if stop.Some? then !IsSkippable(stop.value) else rest == []
    decreases |ts|
  {
    if ts == [] {
      skipped, stop, rest := [], None, [];
    } else if IsSkippable(ts[0]) {
      skipped, stop, rest := DeriveSkipped(ts[1..]);
      assert ts == [ts[0]] + ts[1..] == [ts[0]] + skipped + Opt(stop) + rest;
      skipped := [ts[0]] + skipped;
    } else {
      skipped, stop, rest := [], Some(ts[0]), ts[1..];
    }
  }

  /** Whatever the tokens are, they start with a value. */
  lemma DeriveValue(ts: seq<Token>) returns (n: Node, rest: seq<Token>)
    requires ts != [] && AreTokens(ts)
    ensures IsNode(n) && ts == Tokens(n) + rest && (IsOk(n) || rest == [])
    decreases |ts|, 2
  {
    hide EntriesTokens, SlotsTokens, IsLexed;
    LexedKinds(ts[0]);
    assert ts == [ts[0]] + ts[1..];
    if ts[0] == OPEN_ARRAY {
      var entries, closed;
      entries, closed, rest := DeriveEntries(ts[1..]);
      n := Array(entries, closed);
    } else if ts[0] == OPEN_OBJECT {
      var slots, ending;
      slots, ending, rest := DeriveSlots(ts[1..]);
      n := Object(slots, ending);
    } else if StartsValue(ts[0]) {
      n, rest := Scalar(ts[0]), ts[1..];
    } else {
      var skipped, stop;
      skipped, stop, rest := DeriveSkipped(ts[1..]);
      n := Junk(ts[0], skipped, stop);
      assert ts == [ts[0]] + (skipped + Opt(stop)) + rest;
    }
  }

  lemma EntryJoins(e: Entry, entries: seq<Entry>, closed: bool, rest: seq<Token>)
    requires IsNode(e.val) && !IsPlain(Tokens(e.val)[0], ArrayEnd) && AreEntries(entries, closed)
    requires EndsWell(e, entries == [], closed)
    ensures AreEntries([e] + entries, closed)
    ensures EntriesTokens([e] + entries, closed) + rest
         == Tokens(e.val) + (Opt(e.after) + (EntriesTokens(entries, closed) + rest))
  {
    hide IsNode, Tokens, IsOk, EntriesTokens;
    var all := [e] + entries;
    assert all[1..] == entries;
    forall i | 0 <= i < |all| ensures EndsWell(all[i], i == |all| - 1, closed) {
      assert i > 0 ==> all[i] == entries[i - 1];
    }
    assert AreEntries(all, closed);
    RestOfEntries(all, closed, rest);
  }

  lemma DeriveEntries(ts: seq<Token>) returns (entries: seq<Entry>, closed: bool, rest: seq<Token>)
    requires AreTokens(ts)
    ensures AreEntries(entries, closed) && ts == EntriesTokens(entries, closed) + rest && (closed || rest == [])
    decreases |ts|, 3
  {
    hide IsNode, Tokens, EntriesTokens, IsLexed, IsOk;
    NoMoreTokens(false, []);
    if ts == [] {
      entries, closed, rest := [], false, [];
    } else if IsPlain(ts[0], ArrayEnd) {
      LexedKinds(ts[0]);
      entries, closed, rest := [], true, ts[1..];
      NoMoreTokens(true, rest);
      assert ts == [ts[0]] + ts[1..];
    } else {
      var v, more := DeriveValue(ts);
      FirstOfSum(Tokens(v), more);
      assert AreTokens(more) by { TailsAreTokens(ts, |Tokens(v)|); }
      var others, after := [], None;
      if more == [] {
        closed, rest := false, [];
      } else if IsPlain(more[0], ArrayEnd) {
        LexedKinds(more[0]);
        closed, rest := true, more[1..];
        NoMoreTokens(true, rest);
      } else {
        after := Some(more[0]);
        others, closed, rest := DeriveEntries(more[1..]);
      }
      assert more == Opt(after) + (EntriesTokens(others, closed) + rest);
      EntryJoins(Entry(v, after), others, closed, rest);
      entries := [Entry(v, after)] + others;
    }
  }

  lemma TailsAreTokens(ts: seq<Token>, k: nat)
    requires AreTokens(ts) && k <= |ts|
    ensures AreTokens(ts[k..])
  {
    hide IsLexed, IsSignificant;
  }

  lemma SlotJoins(f: Slot, slots: seq<Slot>, ending: Ending, rest: seq<Token>)
    requires IsNode(f.val) && !IsPlain(f.key, ObjectEnd) && AreSlots(slots, ending) && LeadsOn(f, slots == [], ending)
    ensures AreSlots([f] + slots, ending)
    ensures SlotsTokens([f] + slots, ending) + rest
         == [f.key] + ([f.delimiter] + (Tokens(f.val) + (Opt(f.after) + (SlotsTokens(slots, ending) + rest))))
  {
    hide IsNode, Tokens, IsOk, SlotsTokens;
    var all := [f] + slots;
    assert all[1..] == slots;
    forall i | 0 <= i < |all| ensures LeadsOn(all[i], i == |all| - 1, ending) {
      assert i > 0 ==> all[i] == slots[i - 1];
    }
    SlotTokens(all, ending, rest);
  }

  lemma EndingOnly(ending: Ending, rest: seq<Token>)
    requires ending.NoDelimiter? || ending.NoValue? ==> !IsPlain(ending.key, ObjectEnd)
    ensures AreSlots([], ending) && SlotsTokens([], ending) + rest == EndingTokens(ending) + rest
  {
  }

  lemma DeriveSlots(ts: seq<Token>) returns (slots: seq<Slot>, ending: Ending, rest: seq<Token>)
    requires AreTokens(ts)
    ensures AreSlots(slots, ending) && ts == SlotsTokens(slots, ending) + rest && (ending.Closed? || rest == [])
    decreases |ts|, 1
  {
    hide IsNode, Tokens, SlotsTokens, IsLexed, IsOk, AreSlots;
    if |ts| >= 3 && !IsPlain(ts[0], ObjectEnd) {
      slots, ending, rest := DeriveField(ts);
    } else {
      slots := [];
      if ts == [] {
        ending, rest := Cut, [];
      } else if IsPlain(ts[0], ObjectEnd) {
        LexedKinds(ts[0]);
        ending, rest := Closed, ts[1..];
        assert ts == [ts[0]] + ts[1..];
      } else {
        ending, rest := if |ts| == 1 then NoDelimiter(ts[0]) else NoValue(ts[0], ts[1]), [];
      }
      assert ts == EndingTokens(ending) + rest;
      EndingOnly(ending, rest);
    }
  }

  lemma DeriveField(ts: seq<Token>) returns (slots: seq<Slot>, ending: Ending, rest: seq<Token>)
    requires AreTokens(ts) && |ts| >= 3 && !IsPlain(ts[0], ObjectEnd)
    ensures AreSlots(slots, ending) && ts == SlotsTokens(slots, ending) + rest && (ending.Closed? || rest == [])
    decreases |ts|, 0
  {
    hide IsNode, Tokens, SlotsTokens, IsLexed, IsOk, AreSlots, AreTokens;
    TailsAreTokens(ts, 2);
    var v, more := DeriveValue(ts[2..]);
    FirstOfSum(Tokens(v), more);
    TailsAreTokens(ts[2..], |Tokens(v)|);
    var others, after;
    others, after, ending, rest := DeriveMoreFields(v, more);
    slots := [Slot(ts[0], ts[1], v, after)] + others;
    SlotJoins(Slot(ts[0], ts[1], v, after), others, ending, rest);
    assert ts == [ts[0]] + ([ts[1]] + ts[2..]);
  }

  /** What follows the value of a field. */
  lemma DeriveMoreFields(v: Node, more: seq<Token>)
    returns (others: seq<Slot>, after: Option<Token>, ending: Ending, rest: seq<Token>)
    requires AreTokens(more) && (IsOk(v) || more == [])
    ensures AreSlots(others, ending) && more == Opt(after) + (SlotsTokens(others, ending) + rest)
    ensures ending.Closed? || rest == []
    ensures if after.Some? then IsOk(v) && !IsPlain(after.value, ObjectEnd)
            else others == [] && (ending.Cut? || (ending.Closed? && IsOk(v)))
    decreases |more|, 2
  {
    hide SlotsTokens, IsLexed, IsOk, AreSlots;
    others, after := [], None;
    if more == [] {
      ending, rest := Cut, [];
      EndingOnly(ending, rest);
    } else if IsPlain(more[0], ObjectEnd) {
      LexedKinds(more[0]);
      ending, rest := Closed, more[1..];
      EndingOnly(ending, rest);
    } else {
      TailsAreTokens(more, 1);
      after := Some(more[0]);
      others, ending, rest := DeriveSlots(more[1..]);
    }
  }

  lemma {:induction false} StreamIsSignificant(s: bytes, i: nat)
    requires i < |Stream(s, true)|
    ensures IsSignificant(Stream(s, true)[i])
    decreases |s|
  {
    hide FirstToken;
    var t := FirstToken(s);
    if IsSkipped(t, true) {
      StreamIsSignificant(s[|t.text|..], i);
    } else if i > 0 {
      StreamIsSignificant(s[|t.text|..], i - 1);
    }
  }

  /** Every text with a significant token has a derivation. */
  lemma EveryTextIsDerived(text: bytes)
    requires Stream(text, true) != []
    ensures exists n, rest :: Starts(n, rest, text)
  {
    hide IsNode, Tokens, Stream, IsLexed, IsSignificant;
    var ts := Stream(text, true);
    forall i | 0 <= i < |ts| ensures IsLexed(ts[i]) && IsSignificant(ts[i]) {
      StreamLexed(text, true, i);
      StreamIsSignificant(text, i);
    }
    var n, rest := DeriveValue(ts);
    assert Starts(n, rest, text);
  }
}
