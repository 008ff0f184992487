/** What `match_number` accepts, in terms of a grammar: the longest prefix that can still become a number. */
module NumberGrammar {
  import opened Bytes
  import opened TokenPatterns

  datatype ExponentForm = ExponentForm(mark: byte, sign: bytes, digits: bytes)

  /** The parts of -?D+(.D+)?([eE][+-]?D+)?: section 6 of RFC 8259, but leading zeros are allowed. */
  datatype NumberForm =
    NumberForm(minus: bool, whole: bytes, fraction: Option<bytes>, exponent: Option<ExponentForm>)

  ghost predicate AreDigits(s: bytes) { s != [] && forall i :: 0 <= i < |s| ==> IsDigit(s[i]) }

  ghost predicate IsForm(f: NumberForm) {
    && AreDigits(f.whole)
    && (f.fraction.Some? ==> AreDigits(f.fraction.value))
    && (f.exponent.Some? ==>
          f.exponent.value.mark in {LOWER_E, UPPER_E} && AreDigits(f.exponent.value.digits)
          && f.exponent.value.sign in {[], [PLUS], [MINUS]})
  }

  function ExponentText(e: Option<ExponentForm>): bytes {
    if e.None? then [] else [e.value.mark] + e.value.sign + e.value.digits
  }

  function FractionText(f: Option<bytes>): bytes { if f.None? then [] else [DOT] + f.value }

  function FormText(f: NumberForm): bytes {
    (if f.minus then [MINUS] else []) + f.whole + FractionText(f.fraction) + ExponentText(f.exponent)
  }

  ghost predicate IsNumber(s: bytes) { exists f :: IsForm(f) && FormText(f) == s }

  /** A number of section 6 of RFC 8259: the whole part is zero or does not start with one. */
  ghost predicate IsRfcNumber(s: bytes) {
    exists f :: IsForm(f) && FormText(f) == s && (f.whole == [ZERO] || f.whole[0] != ZERO)
  }

  /** `s` can be extended to a number. */
  ghost predicate IsViable(s: bytes) { exists rest :: IsNumber(s + rest) }

  /** The automaton reads all of `s` from `state` and stops in `last`. */
  ghost predicate Reads(state: NumberState, s: bytes, last: NumberState) {
    RunLength(s, state) == |s| && RunState(s, state) == last
  }

  lemma {:induction false} ReadsConcat(a: NumberState, s: bytes, b: NumberState, t: bytes, c: NumberState)
    requires Reads(a, s, b) && Reads(b, t, c)
    ensures Reads(a, s + t, c)
    decreases |s|
  {
    if s == [] {
      assert s + t == t;
    } else {
      assert (s + t)[1..] == s[1..] + t;
      ReadsConcat(Delta(a, s[0]).value, s[1..], b, t, c);
    }
  }

  lemma ReadsByte(a: NumberState, c: byte, b: NumberState)
    requires Delta(a, c) == Some(b)
    ensures Reads(a, [c], b)
  {
    assert RunLength([c][1..], b) == 0;
  }

  lemma {:induction false} ReadsDigits(a: NumberState, s: bytes, b: NumberState)
    requires AreDigits(s)
    requires forall d | IsDigit(d) :: Delta(a, d) == Some(b)
    requires forall d | IsDigit(d) :: Delta(b, d) == Some(b)
    ensures Reads(a, s, b)
    decreases |s|
  {
    if |s| == 1 {
      ReadsByte(a, s[0], b);
      assert s == [s[0]];
    } else {
      ReadsDigits(b, s[1..], b);
    }
  }

  lemma ReadsExponent(a: NumberState, e: ExponentForm)
    requires a == Whole || a == Fraction
    requires IsMark(e.mark) && AreDigits(e.digits) && e.sign in {[], [PLUS], [MINUS]}
    ensures Reads(a, ExponentText(Some(e)), Exponent)
  {
    ReadsByte(a, e.mark, AfterMark);
    if e.sign == [] {
      ReadsDigits(AfterMark, e.digits, Exponent);
      ReadsConcat(a, [e.mark], AfterMark, e.digits, Exponent);
      assert [e.mark] + e.sign + e.digits == [e.mark] + e.digits;
    } else {
      ReadsByte(AfterMark, e.sign[0], AfterSign);
      ReadsConcat(a, [e.mark], AfterMark, e.sign, AfterSign);
      ReadsDigits(AfterSign, e.digits, Exponent);
      ReadsConcat(a, [e.mark] + e.sign, AfterSign, e.digits, Exponent);
    }
  }

  lemma FormIsRead(f: NumberForm)
    requires IsForm(f)
    ensures RunLength(FormText(f), Start) == |FormText(f)| && Accepting(RunState(FormText(f), Start))
  {
    hide RunLength, RunState;
    var head := (if f.minus then [MINUS] else []) + f.whole;
    if f.minus {
      ReadsByte(Start, MINUS, AfterMinus);
      ReadsDigits(AfterMinus, f.whole, Whole);
      ReadsConcat(Start, [MINUS], AfterMinus, f.whole, Whole);
    } else {
      ReadsDigits(Start, f.whole, Whole);
      assert head == f.whole;
    }
    var state := Whole;
    var text := head;
    if f.fraction.Some? {
      ReadsByte(Whole, DOT, AfterPoint);
      ReadsDigits(AfterPoint, f.fraction.value, Fraction);
      ReadsConcat(Whole, [DOT], AfterPoint, f.fraction.value, Fraction);
      ReadsConcat(Start, head, Whole, FractionText(f.fraction), Fraction);
      state := Fraction;
      text := head + FractionText(f.fraction);
    }
    assert head + FractionText(f.fraction) == text;
    if f.exponent.Some? {
      ReadsExponent(state, f.exponent.value);
      ReadsConcat(Start, text, state, ExponentText(f.exponent), Exponent);
    } else {
      assert FormText(f) == text;
    }
  }

  /** The automaton accepts all of `s` from `state`. */
  ghost predicate Accepts(state: NumberState, s: bytes) {
    RunLength(s, state) == |s| && Accepting(RunState(s, state))
  }

  lemma AcceptsStep(state: NumberState, s: bytes)
    requires Accepts(state, s) && (s != [] || !Accepting(state))
    ensures s != [] && Delta(state, s[0]).Some? && Accepts(Delta(state, s[0]).value, s[1..])
  {
  }

  /** A maximal run of digits read in a state that digits do not leave. */
  lemma {:induction false} SplitDigits(state: NumberState, s: bytes) returns (digits: bytes, rest: bytes)
    requires Accepts(state, s) && Accepting(state)
    ensures s == digits + rest && (forall i :: 0 <= i < |digits| ==> IsDigit(digits[i]))
    ensures Accepts(state, rest) && (rest != [] ==> !IsDigit(rest[0]))
  {
    if s == [] || !IsDigit(s[0]) {
      digits, rest := [], s;
    } else {
      var more, tail := SplitDigits(state, s[1..]);
      digits, rest := [s[0]] + more, tail;
    }
  }

  lemma FormOfExponent(s: bytes) returns (e: ExponentForm)
    requires Accepts(AfterMark, s)
    ensures AreDigits(e.digits) && e.sign in {[], [PLUS], [MINUS]} && e.sign + e.digits == s
  {
    AcceptsStep(AfterMark, s);
    if IsDigit(s[0]) {
      var digits, rest := SplitDigits(Exponent, s[1..]);
      if rest != [] { AcceptsStep(Exponent, rest); }
      e := ExponentForm(LOWER_E, [], s);
      assert [s[0]] + digits == s;
    } else {
      AcceptsStep(AfterSign, s[1..]);
      var digits, rest := SplitDigits(Exponent, s[1..][1..]);
      if rest != [] { AcceptsStep(Exponent, rest); }
      e := ExponentForm(LOWER_E, [s[0]], s[1..]);
      assert [s[1]] + digits == s[1..];
    }
  }

  /** What is left after a run of digits that ended in `Fraction`, or in `Whole` with no point. */
  lemma FormOfTail(state: NumberState, s: bytes) returns (e: Option<ExponentForm>)
    requires Accepts(state, s) && (state == Whole || state == Fraction)
    requires s != [] ==> IsMark(s[0])
    ensures ExponentText(e) == s && IsForm(NumberForm(false, [ZERO], None, e))
  {
    if s == [] {
      e := None;
    } else {
      AcceptsStep(state, s);
      var form := FormOfExponent(s[1..]);
      e := Some(form.(mark := s[0]));
      assert [s[0]] + form.sign + form.digits == [s[0]] + (form.sign + form.digits) == s;
    }
  }

  lemma FractionJoins(whole: bytes, s: bytes, digits: bytes, tail: bytes)
    requires |s| >= 2 && s[0] == DOT && digits + tail == s[1..][1..]
    ensures whole + FractionText(Some([s[1]] + digits)) + tail == whole + s
  {
    assert s == [DOT] + ([s[1]] + (digits + tail));
  }

  lemma FormOfWhole(s: bytes) returns (whole: bytes, fraction: Option<bytes>, e: Option<ExponentForm>)
    requires Accepts(Whole, s)
    ensures forall i :: 0 <= i < |whole| ==> IsDigit(whole[i])
    ensures whole + FractionText(fraction) + ExponentText(e) == s
    ensures IsForm(NumberForm(false, [ZERO], fraction, e))
  {
    hide RunLength, RunState, ExponentText;
    var rest;
    whole, rest := SplitDigits(Whole, s);
    fraction := None;
    if rest != [] && rest[0] == DOT {
      AcceptsStep(Whole, rest);
      AcceptsStep(AfterPoint, rest[1..]);
      var digits, tail := SplitDigits(Fraction, rest[1..][1..]);
      if tail != [] { AcceptsStep(Fraction, tail); }
      e := FormOfTail(Fraction, tail);
      fraction := Some([rest[1]] + digits);
      FractionJoins(whole, rest, digits, tail);
    } else {
      if rest != [] { AcceptsStep(Whole, rest); }
      e := FormOfTail(Whole, rest);
      assert whole + FractionText(fraction) == whole;
    }
  }

  lemma ReadIsForm(s: bytes)
    requires Accepts(Start, s)
    ensures IsNumber(s)
  {
    hide RunLength, RunState, FractionText, ExponentText, IsNumber;
    AcceptsStep(Start, s);
    var minus := s[0] == MINUS;
    var t := if minus then s[1..] else s;
    if minus { AcceptsStep(AfterMinus, t); }
    var whole, fraction, e := FormOfWhole(t[1..]);
    WholeForm(minus, t[0], whole, fraction, e);
    assert t == [t[0]] + t[1..];
    assert s == (if minus then [MINUS] else []) + t;
  }

  lemma WholeForm(minus: bool, first: byte, more: bytes, fraction: Option<bytes>, e: Option<ExponentForm>)
    requires IsDigit(first) && (forall i :: 0 <= i < |more| ==> IsDigit(more[i]))
    requires IsForm(NumberForm(false, [ZERO], fraction, e))
    ensures IsNumber((if minus then [MINUS] else []) + ([first] + (more + FractionText(fraction) + ExponentText(e))))
  {
    hide FractionText, ExponentText;
    var f := NumberForm(minus, [first] + more, fraction, e);
    assert IsForm(f);
    var sign: bytes := if minus then [MINUS] else [];
    assert FormText(f) == sign + ([first] + more) + FractionText(fraction) + ExponentText(e);
    assert FormText(f) == sign + ([first] + (more + FractionText(fraction) + ExponentText(e)));
  }

  /** The automaton accepts exactly the numbers of the grammar. */
  lemma AcceptsIffNumber(s: bytes)
    ensures Accepts(Start, s) <==> IsNumber(s)
  {
    if IsNumber(s) {
      var f :| IsForm(f) && FormText(f) == s;
      FormIsRead(f);
    }
    if Accepts(Start, s) {
      ReadIsForm(s);
    }
  }

  /** Reading stops early on an extension only where it stopped before. */
  lemma {:induction false} RunExtends(s: bytes, rest: bytes, state: NumberState)
    ensures RunLength(s, state) < |s| ==> RunLength(s + rest, state) == RunLength(s, state)
    ensures RunLength(s, state) == |s| ==> RunLength(s + rest, state) == |s| + RunLength(rest, RunState(s, state))
    ensures RunLength(s, state) == |s| ==> RunState(s + rest, state) == RunState(rest, RunState(s, state))
  {
    if s == [] {
      assert s + rest == rest;
    } else if Delta(state, s[0]).Some? {
      assert (s + rest)[1..] == s[1..] + rest;
      RunExtends(s[1..], rest, Delta(state, s[0]).value);
    }
  }

  lemma Completion(state: NumberState) returns (rest: bytes)
    ensures Accepts(state, rest)
  {
    if Accepting(state) {
      rest := [];
    } else if state == AfterPoint {
      ReadsByte(state, ZERO, Fraction);
      rest := [ZERO];
    } else if state == AfterMark || state == AfterSign {
      ReadsByte(state, ZERO, Exponent);
      rest := [ZERO];
    } else {
      ReadsByte(state, ZERO, Whole);
      rest := [ZERO];
    }
  }

  lemma ViableIffRead(s: bytes)
    ensures IsViable(s) <==> RunLength(s, Start) == |s|
  {
    if IsViable(s) {
      var rest :| IsNumber(s + rest);
      AcceptsIffNumber(s + rest);
      RunExtends(s, rest, Start);
    }
    if RunLength(s, Start) == |s| {
      var rest := Completion(RunState(s, Start));
      RunExtends(s, rest, Start);
      AcceptsIffNumber(s + rest);
    }
  }

  lemma {:induction false} RunOfPrefix(s: bytes, n: nat, state: NumberState)
    requires n <= |s|
    ensures n <= RunLength(s, state) ==> RunLength(s[..n], state) == n
    ensures n == RunLength(s, state) ==> RunState(s[..n], state) == RunState(s, state)
    ensures n > RunLength(s, state) ==> RunLength(s[..n], state) < n
  {
    if n > 0 && Delta(state, s[0]).Some? {
      RunOfPrefix(s[1..], n - 1, Delta(state, s[0]).value);
      assert s[..n][1..] == s[1..][..n - 1];
    }
  }

  /** The scanner stops after the longest viable prefix, and reports a complete token exactly when that
      prefix is a number. */
  lemma LongestViablePrefix(s: bytes)
    ensures var n := RunLength(s, Start);
      && IsViable(s[..n])
      && (forall m :: n < m <= |s| ==> !IsViable(s[..m]))
      && (Accepting(RunState(s, Start)) <==> IsNumber(s[..n]))
  {
    var n := RunLength(s, Start);
    RunOfPrefix(s, n, Start);
    ViableIffRead(s[..n]);
    AcceptsIffNumber(s[..n]);
    forall m | n < m <= |s| ensures !IsViable(s[..m]) {
      RunOfPrefix(s, m, Start);
      ViableIffRead(s[..m]);
    }
  }

  /** The whole part has a leading zero. */
  predicate IsPadded(s: bytes) {
    var t := if s != [] && s[0] == MINUS then s[1..] else s;
    |t| >= 2 && t[0] == ZERO && IsDigit(t[1])
  }

  lemma AfterWhole(f: NumberForm)
    requires IsForm(f)
    ensures var more := FractionText(f.fraction) + ExponentText(f.exponent); more != [] ==> !IsDigit(more[0])
  {
  }

  lemma FormIsPadded(f: NumberForm)
    requires IsForm(f)
    ensures IsPadded(FormText(f)) <==> |f.whole| >= 2 && f.whole[0] == ZERO
  {
    hide FractionText, ExponentText;
    var s := FormText(f);
    var more := FractionText(f.fraction) + ExponentText(f.exponent);
    AfterWhole(f);
    var t := if f.minus then s[1..] else s;
    assert s == (if f.minus then [MINUS] else []) + (f.whole + more);
    assert t == f.whole + more;
    assert s[0] == MINUS <==> f.minus;
  }

  /** The numbers that `match_number` completes are those of RFC 8259 and, beyond them, only those whose whole part
      has a leading zero. */
  lemma RfcIffNotPadded(s: bytes)
    requires IsNumber(s)
    ensures IsRfcNumber(s) <==> !IsPadded(s)
  {
    hide FormText, IsPadded;
    var f :| IsForm(f) && FormText(f) == s;
    FormIsPadded(f);
    if IsRfcNumber(s) {
      var g :| IsForm(g) && FormText(g) == s && (g.whole == [ZERO] || g.whole[0] != ZERO);
      FormIsPadded(g);
    }
    if |f.whole| == 1 {
      assert f.whole == [f.whole[0]];
    }
  }
}
