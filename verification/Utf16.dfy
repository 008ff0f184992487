/** UTF-8 to UTF-16 and back (`convert_to_wide`, `convert_to_narrow`). */
module Utf16 {
  import opened Bytes
  import opened Utf8
  import opened StringCodec
  import opened CodecTheorems

  /** The character that `convert_to_wide` reads first; None where it throws. It takes overlong forms. */
  function WideUnit(s: bytes): (u: Option<Unit>)
    requires s != []
    ensures u.Some? ==> 1 <= u.value.length <= |s| && IsScalar(u.value.code)
  {
    var n := LeadLength(s[0]);
    if n == 0 || n > 4 || n > |s| then None
    else
      match Continue(LeadPayload(s[0]), s[1..n])
      case None => None
      case Some(code) => if IsScalar(code) then Some(Unit(n, code)) else None
  }

  function Codes(s: bytes): Option<seq<nat>> {
    if s == [] then Some([])
    else
      match WideUnit(s)
      case None => None
      case Some(u) => Before([u.code], Codes(s[u.length..]))
  }

  function Before<T>(a: seq<T>, r: Option<seq<T>>): Option<seq<T>> {
    match r
    case Some(b) => Some(a + b)
    case None => None
  }

  /** A code point in UTF-16. */
  function Utf16Of(code: nat): seq<hex16> {
    if code < 0x1_0000 then [code] else [Surrogates(code).0, Surrogates(code).1]
  }

  function AllUtf16(codes: seq<nat>): seq<hex16> {
    if codes == [] then [] else Utf16Of(codes[0]) + AllUtf16(codes[1..])
  }

  predicate AreCodes(codes: seq<nat>) { forall i :: 0 <= i < |codes| ==> codes[i] <= 0x10FFFF }

  function AllUtf8(codes: seq<nat>): bytes
    requires AreCodes(codes)
  {
    if codes == [] then [] else Utf8Of(codes[0]) + AllUtf8(codes[1..])
  }

  /** What `convert_to_wide` returns; None is a range_error. */
  function Wide(s: bytes): Option<seq<hex16>> {
    match Codes(s)
    case Some(codes) => Some(AllUtf16(codes))
    case None => None
  }

  /** The character that `convert_to_narrow` reads first. A high surrogate needs three units to be left, itself
      included. A low one on its own is taken as a character. */
  function NarrowUnit(ws: seq<hex16>): (u: Option<Unit>)
    requires ws != []
    ensures u.Some? ==> 1 <= u.value.length <= |ws| && u.value.code <= 0x10FFFF
  {
    if !(0xD800 <= ws[0] < 0xDC00) then Some(Unit(1, ws[0]))
    else if |ws| <= 2 then None
    else
      match Combine(ws[0], ws[1])
      case Some(code) => Some(Unit(2, code))
      case None => None
  }

  function NarrowCodes(ws: seq<hex16>): (r: Option<seq<nat>>)
    ensures r.Some? ==> AreCodes(r.value)
  {
    if ws == [] then Some([])
    else
      match NarrowUnit(ws)
      case None => None
      case Some(u) => Before([u.code], NarrowCodes(ws[u.length..]))
  }

  /** What `convert_to_narrow` returns; None is a range_error. */
  function Narrow(ws: seq<hex16>): Option<bytes> {
    match NarrowCodes(ws)
    case Some(codes) => Some(AllUtf8(codes))
    case None => None
  }

  // ---- the methods ----------------------------------------------------------------------------------------------

  lemma {:induction false} Utf16Concat(a: seq<nat>, b: seq<nat>)
    ensures AllUtf16(a + b) == AllUtf16(a) + AllUtf16(b)
  {
    if a == [] {
      assert a + b == b;
    } else {
      assert (a + b)[1..] == a[1..] + b;
      Utf16Concat(a[1..], b);
    }
  }

  lemma Utf16Append(codes: seq<nat>, code: nat)
    ensures AllUtf16(codes + [code]) == AllUtf16(codes) + Utf16Of(code)
  {
    Utf16Concat(codes, [code]);
    assert [code][1..] == [];
  }

  lemma {:induction false} Utf8Append(codes: seq<nat>, code: nat)
    requires AreCodes(codes) && code <= 0x10FFFF
    ensures AllUtf8(codes + [code]) == AllUtf8(codes) + Utf8Of(code)
  {
    if codes == [] {
      assert [] + [code] == [code] && [code][1..] == [];
    } else {
      assert (codes + [code])[1..] == codes[1..] + [code];
      Utf8Append(codes[1..], code);
    }
  }

  lemma BeforeBefore<T>(a: seq<T>, b: seq<T>, r: Option<seq<T>>)
    ensures Before(a, Before(b, r)) == Before(a + b, r)
  {
    match r
    case Some(c) => assert a + (b + c) == (a + b) + c;
    case None =>
  }

  lemma CodesStep(s: bytes, u: Unit, done: seq<nat>)
    requires s != [] && WideUnit(s) == Some(u)
    ensures Before(done, Codes(s)) == Before(done + [u.code], Codes(s[u.length..]))
  {
    BeforeBefore(done, [u.code], Codes(s[u.length..]));
  }

  lemma CodesEnd(s: bytes)
    ensures s == [] ==> Codes(s) == Some([])
    ensures s != [] && WideUnit(s).None? ==> Codes(s).None?
  {
  }

  lemma NothingBefore<T>(r: Option<seq<T>>)
    ensures Before([], r) == r
  {
    match r
    case Some(a) => assert [] + a == a;
    case None =>
  }

  /** `convert_to_wide`, with the size it reserves for its result. */
  method ConvertToWide(source: bytes) returns (out: Option<seq<hex16>>, reserved: nat)
    ensures out == Wide(source)
    ensures out.Some? ==> reserved == |out.value|
  {
    hide Codes, AllUtf16;
    reserved := 0;
    var buff: seq<nat> := [];
    var large := 0;
    var idx := 0;
    assert AllUtf16([]) == [] by { NoCodes(); }
    assert source[0..] == source;
    NothingBefore(Codes(source));
    while idx < |source|
      invariant 0 <= idx <= |source|
      invariant Codes(source) == Before(buff, Codes(source[idx..]))
      invariant |AllUtf16(buff)| == |buff| + large
    {
      var unit := ReadWideUnit(source, idx);
      if unit.None? {
        CodesEnd(source[idx..]);
        return None, 0;
      }
      CodesStep(source[idx..], unit.value, buff);
      Utf16Append(buff, unit.value.code);
      assert source[idx..][unit.value.length..] == source[idx + unit.value.length..];
      buff := buff + [unit.value.code];
      idx := idx + unit.value.length;
      if unit.value.code > 0xFFFF {
        large := large + 1;
      }
    }
    assert Codes(source) == Some(buff) by {
      CodesEnd(source[idx..]);
      assert buff + [] == buff;
    }
    reserved := |buff| + large;
    var text: seq<hex16> := [];
    for i := 0 to |buff|
      invariant text == AllUtf16(buff[..i])
    {
      assert buff[..i + 1] == buff[..i] + [buff[i]];
      Utf16Append(buff[..i], buff[i]);
      if buff[i] <= 0xFFFF {
        text := text + [buff[i]];
      } else {
        text := text + [Surrogates(buff[i]).0] + [Surrogates(buff[i]).1];
      }
    }
    assert buff[..|buff|] == buff;
    return Some(text), reserved;
  }

  /** One character of `convert_to_wide`. */
  method ReadWideUnit(source: bytes, start: nat) returns (unit: Option<Unit>)
    requires start < |source|
    ensures unit == WideUnit(source[start..])
  {
    ghost var s := source[start..];
    var code: nat;
    var steps: nat;
    var c := source[start];
    if c <= 0x7F {
      code, steps := c, 0;
    } else if c <= 0xBF {
      return None;
    } else if c <= 0xDF {
      code, steps := c % 0x20, 1;
    } else if c <= 0xEF {
      code, steps := c % 0x10, 2;
    } else if c <= 0xF7 {
      code, steps := c % 0x08, 3;
    } else {
      return None;
    }
    assert LeadLength(c) == steps + 1 && LeadPayload(c) == code;
    if start + 1 + steps > |source| {
      return None;
    }
    ghost var rest := s[1..1 + steps];
    var step := 0;
    while step < steps
      invariant 0 <= step <= steps
      invariant Continue(LeadPayload(c), rest) == Continue(code, rest[step..])
    {
      var next := source[start + 1 + step];
      assert rest[step..][0] == next && rest[step..][1..] == rest[step + 1..];
      if next < 0x80 || next > 0xBF {
        return None;
      }
      code := code * 64 + next % 0x40;
      step := step + 1;
    }
    if (0xD800 <= code && code <= 0xDFFF) || code > 0x10FFFF {
      return None;
    }
    return Some(Unit(1 + steps, code));
  }

  lemma NoCodes()
    ensures AllUtf16([]) == [] && AllUtf8([]) == []
  {
  }

  lemma NarrowCodesEnd(ws: seq<hex16>)
    ensures ws == [] ==> NarrowCodes(ws) == Some([])
    ensures ws != [] && NarrowUnit(ws).None? ==> NarrowCodes(ws).None?
  {
  }

  lemma NarrowCodesStep(ws: seq<hex16>, u: Unit, done: seq<nat>)
    requires ws != [] && NarrowUnit(ws) == Some(u)
    ensures Before(done, NarrowCodes(ws)) == Before(done + [u.code], NarrowCodes(ws[u.length..]))
  {
    BeforeBefore(done, [u.code], NarrowCodes(ws[u.length..]));
  }

  /** `convert_to_narrow`, with the size it reserves for its result. */
  method ConvertToNarrow(source: seq<hex16>) returns (out: Option<bytes>, reserved: nat)
    ensures out == Narrow(source)
    ensures out.Some? ==> reserved == |out.value|
  {
    hide NarrowCodes, AllUtf8, NarrowUnit, Combine;
    reserved := 0;
    var buff: seq<nat> := [];
    var idx := 0;
    assert AllUtf8([]) == [] by { NoCodes(); }
    assert source[0..] == source;
    NothingBefore(NarrowCodes(source));
    while idx < |source|
      invariant 0 <= idx <= |source|
      invariant AreCodes(buff)
      invariant NarrowCodes(source) == Before(buff, NarrowCodes(source[idx..]))
      invariant |AllUtf8(buff)| == reserved
    {
      var unit := ReadNarrowUnit(source, idx);
      if unit.None? {
        NarrowCodesEnd(source[idx..]);
        return None, 0;
      }
      NarrowCodesStep(source[idx..], unit.value, buff);
      Utf8Append(buff, unit.value.code);
      assert source[idx..][unit.value.length..] == source[idx + unit.value.length..];
      buff := buff + [unit.value.code];
      idx := idx + unit.value.length;
      reserved := reserved + (if unit.value.code <= 0x7F then 1
                              else if unit.value.code <= 0x7FF then 2
                              else if unit.value.code <= 0xFFFF then 3
                              else 4);
    }
    assert NarrowCodes(source) == Some(buff) by {
      NarrowCodesEnd(source[idx..]);
      assert buff + [] == buff;
    }
    var text: bytes := [];
    for i := 0 to |buff|
      invariant text == AllUtf8(buff[..i])
    {
      assert buff[..i + 1] == buff[..i] + [buff[i]];
      Utf8Append(buff[..i], buff[i]);
      text := AppendCode(text, buff[i]);
    }
    assert buff[..|buff|] == buff;
    return Some(text), reserved;
  }

  /** One character of `convert_to_narrow`. */
  method ReadNarrowUnit(source: seq<hex16>, start: nat) returns (unit: Option<Unit>)
    requires start < |source|
    ensures unit == NarrowUnit(source[start..])
  {
    var idx := start;
    var c := source[idx];
    idx := idx + 1;
    if c / 0x400 != 0x36 {
      return Some(Unit(1, c));
    }
    if idx + 1 >= |source| {
      return None;
    }
    var code := Combine(c, source[idx]);
    if code.None? {
      return None;
    }
    return Some(Unit(2, code.value));
  }

  // ---- there and back -------------------------------------------------------------------------------------------

  predicate AreScalar(codes: seq<nat>) { forall i :: 0 <= i < |codes| ==> IsScalar(codes[i]) }

  /** The last character, if any, is in the basic multilingual plane. */
  predicate EndsInPlane(codes: seq<nat>) { codes == [] || codes[|codes| - 1] <= 0xFFFF }

  lemma {:induction false} NarrowWidened(codes: seq<nat>)
    requires AreScalar(codes)
    ensures NarrowCodes(AllUtf16(codes)) == if EndsInPlane(codes) then Some(codes) else None
  {
    hide Surrogates, Combine;
    if codes != [] {
      var ws := AllUtf16(codes);
      var rest := AllUtf16(codes[1..]);
      NarrowWidened(codes[1..]);
      if codes[0] <= 0xFFFF {
        assert ws[1..] == rest;
        assert NarrowUnit(ws) == Some(Unit(1, codes[0]));
      } else {
        ScalarPair(codes[0]);
        assert ws[2..] == rest;
        assert |ws| == 2 + |rest|;
        if |codes| == 1 {
          assert NarrowUnit(ws) == None;
        } else {
          assert |AllUtf16(codes[1..])| > 0;
          assert NarrowUnit(ws) == Some(Unit(2, codes[0]));
        }
      }
      assert [codes[0]] + codes[1..] == codes;
    }
  }

  lemma ScalarPair(code: nat)
    requires 0x1_0000 <= code <= 0x10FFFF
    ensures 0xD800 <= Surrogates(code).0 < 0xDC00
    ensures Combine(Surrogates(code).0, Surrogates(code).1) == Some(code)
  {
    hide Surrogates;
    ScalarSurrogates(code);
  }

  /** What `convert_to_wide` accepts is made of scalar values, and its output is the UTF-16 that the JSON
      encoder escapes. */
  lemma {:induction false} CodesAreUnits(s: bytes)
    requires Codes(s).Some?
    ensures AreScalar(Codes(s).value) && AllScalar(s)
    ensures AllUtf8(Codes(s).value) == Repair(s)
    ensures AllUtf16(Codes(s).value) == Utf16Units(s)
  {
    hide Utf8Of, Surrogates, Continue;
    if s != [] {
      var u := WideUnit(s).value;
      assert FirstUnit(s) == u;
      CodesAreUnits(s[u.length..]);
      assert Codes(s).value[1..] == Codes(s[u.length..]).value;
    }
  }

  lemma WellFormedWideUnit(s: bytes)
    requires WellFormedLength(s) > 0
    ensures WideUnit(s) == Some(FirstUnit(s)) && FirstUnit(s).length == WellFormedLength(s)
    ensures Utf8Of(FirstUnit(s).code) == s[..WellFormedLength(s)]
  {
    hide Utf8Of;
    WellFormedUnit(s);
    if s[0] <= 0x7F {
      assert Continue(s[0], []) == Some(s[0]);
    }
  }

  lemma {:induction false} WellFormedIsAccepted(s: bytes)
    requires IsWellFormed(s)
    ensures Codes(s).Some?
  {
    hide Continue, WideUnit, FirstUnit;
    if s != [] {
      WellFormedWideUnit(s);
      WellFormedIsAccepted(s[WellFormedLength(s)..]);
    }
  }

  /** There and back: a narrow string comes back repaired, unless it ends outside the basic plane. */
  lemma NarrowOfWide(s: bytes)
    requires Wide(s).Some?
    ensures AllScalar(s)
    ensures Narrow(Wide(s).value) == if EndsInPlane(Codes(s).value) then Some(Repair(s)) else None
  {
    hide Codes, NarrowCodes, AllUtf16, AllUtf8;
    CodesAreUnits(s);
    NarrowWidened(Codes(s).value);
  }

  /** In well-formed UTF-8 a caller can tell from the fourth byte before the end. */
  predicate EndsInFourBytes(s: bytes) { |s| >= 4 && s[|s| - 4] >= 0xF0 }

  lemma {:induction false} EndsTogether(s: bytes)
    requires IsWellFormed(s) && Codes(s).Some?
    ensures EndsInPlane(Codes(s).value) <==> !EndsInFourBytes(s)
  {
    hide Utf8Of, WideUnit, FirstUnit, WellFormedLength;
    if s != [] {
      var u := WideUnit(s).value;
      WellFormedWideUnit(s);
      var rest := s[u.length..];
      EndsTogether(rest);
      if rest == [] {
        LengthOfCode(u.code);
        OneCharacter(s);
      } else if |rest| < 4 {
        FourBytesBack(s, u.length);
      }
    }
  }

  lemma LengthOfCode(code: nat)
    requires IsScalar(code)
    ensures |Utf8Of(code)| == 4 <==> code > 0xFFFF
    ensures |Utf8Of(code)| <= 4
  {
  }

  lemma OneCharacter(s: bytes)
    requires s != [] && WellFormedLength(s) == |s|
    ensures EndsInFourBytes(s) <==> |s| == 4
  {
  }

  /** Fewer than four bytes of whole characters at the end: the fourth byte from the end is not a lead of four. */
  lemma FourBytesBack(s: bytes, n: nat)
    requires s != [] && n == WellFormedLength(s) && n > 0 && 0 < |s| - n < 4
    ensures !EndsInFourBytes(s)
  {
  }

  /** `convert_to_narrow(convert_to_wide(s))` is `s` exactly when `s` is well-formed UTF-8 that does not end in a
      four-byte character. */
  lemma WideRoundTrip(s: bytes)
    requires Wide(s).Some?
    ensures Narrow(Wide(s).value) == Some(s) <==> IsWellFormed(s) && !EndsInFourBytes(s)
  {
    hide Wide, Narrow, Repair, IsWellFormed, EndsInFourBytes, EndsInPlane;
    assert Codes(s).Some? by { WideIsCodes(s); }
    NarrowOfWide(s);
    CodesAreUnits(s);
    RepairFixedPoints(s);
    if IsWellFormed(s) {
      EndsTogether(s);
    }
  }

  /** For example, U+10000 is widened to a pair of surrogates, and a pair at the end does not narrow. */
  lemma FinalPairIsLost()
    ensures Wide([0xF0, 0x90, 0x80, 0x80]) == Some([0xD800, 0xDC00]) && Narrow([0xD800, 0xDC00]) == None
  {
    hide Codes;
    var codes: seq<nat> := [0x10000];
    assert AllUtf8(codes[1..]) == [] && AllUtf16(codes[1..]) == [];
    assert AllUtf8(codes) == [0xF0, 0x90, 0x80, 0x80] && AllUtf16(codes) == [0xD800, 0xDC00];
    ReadShortest(codes);
  }

  lemma WideIsCodes(s: bytes)
    ensures Wide(s).Some? <==> Codes(s).Some?
    ensures IsWellFormed(s) ==> Wide(s).Some?
  {
    if IsWellFormed(s) {
      WellFormedIsAccepted(s);
    }
  }

  lemma ScalarIsRead(code: nat, rest: bytes)
    requires IsScalar(code)
    ensures WideUnit(Utf8Of(code) + rest) == Some(Unit(|Utf8Of(code)|, code))
  {
    hide Utf8Of;
    ScalarUnit(code, rest);
    WellFormedWideUnit(Utf8Of(code) + rest);
  }

  /** The three-byte form of a surrogate is refused. */
  lemma SurrogateIsRefused(code: nat, rest: bytes)
    requires IsSurrogate(code)
    ensures WideUnit(Utf8Of(code) + rest) == None
  {
    var s := Utf8Of(code) + rest;
    assert s[..3] == [0xE0 + code / 4096, 0x80 + (code / 64) % 64, 0x80 + code % 64];
    Recompose(code);
    var y, z := (code / 64) % 64, code % 64;
    assert (0x80 + y) % 64 == y && (0x80 + z) % 64 == z;
    UnitOfThree(s);
  }

  /** Shortest forms are read back; a surrogate among them is an error. */
  lemma {:induction false} ReadShortest(codes: seq<nat>)
    requires AreCodes(codes)
    ensures Codes(AllUtf8(codes)) == if AreScalar(codes) then Some(codes) else None
  {
    hide Utf8Of, WideUnit;
    if codes != [] {
      var rest := AllUtf8(codes[1..]);
      var s := AllUtf8(codes);
      if IsSurrogate(codes[0]) {
        SurrogateIsRefused(codes[0], rest);
      } else {
        ScalarIsRead(codes[0], rest);
        assert s[|Utf8Of(codes[0])|..] == rest;
        ReadShortest(codes[1..]);
        assert [codes[0]] + codes[1..] == codes;
      }
    }
  }

  lemma {:induction false} Utf16OfNarrowCodes(ws: seq<hex16>)
    requires NarrowCodes(ws).Some?
    ensures AllUtf16(NarrowCodes(ws).value) == ws
  {
    hide Combine, Surrogates;
    if ws != [] {
      var u := NarrowUnit(ws).value;
      Utf16OfNarrowCodes(ws[u.length..]);
      assert NarrowCodes(ws).value[1..] == NarrowCodes(ws[u.length..]).value;
      if u.length == 2 {
        PairSplits(ws[0], ws[1]);
      }
      assert Utf16Of(u.code) == ws[..u.length];
    }
  }

  lemma PairSplits(high: hex16, low: hex16)
    requires Combine(high, low).Some?
    ensures Surrogates(Combine(high, low).value) == (high, low)
  {
    var v := (high - 0xD800) * 1024 + (low - 0xDC00);
    assert v / 1024 == high - 0xD800 && v % 1024 == low - 0xDC00;
  }

  /** Every high surrogate is followed by a low one, and the two do not end the string. */
  predicate HighsLead(ws: seq<hex16>) {
    forall i :: 0 <= i < |ws| && IsHigh(ws[i]) ==> i + 2 < |ws| && IsLow(ws[i + 1])
  }

  lemma HighsLeadStep(ws: seq<hex16>)
    requires ws != []
    ensures NarrowUnit(ws).None? ==> !HighsLead(ws)
    ensures NarrowUnit(ws).Some? ==> (HighsLead(ws) <==> HighsLead(ws[NarrowUnit(ws).value.length..]))
  {
    if NarrowUnit(ws).Some? {
      var n := NarrowUnit(ws).value.length;
      var rest := ws[n..];
      assert forall i :: 0 <= i < |rest| ==> rest[i] == ws[i + n];
      assert forall i :: n <= i < |ws| ==> ws[i] == rest[i - n];
    }
  }

  /** `convert_to_narrow` throws exactly if some high surrogate has no low one after it, or a pair ends the string. */
  lemma {:induction false} NarrowsIffHighsLead(ws: seq<hex16>)
    ensures Narrow(ws).Some? <==> HighsLead(ws)
    decreases |ws|
  {
    hide NarrowUnit, HighsLead, AllUtf8;
    if ws == [] {
      NothingLeads();
    } else {
      HighsLeadStep(ws);
      if NarrowUnit(ws).Some? {
        NarrowsIffHighsLead(ws[NarrowUnit(ws).value.length..]);
      }
    }
  }

  lemma NothingLeads()
    ensures HighsLead([])
  {
  }

  lemma LowsFollowStep(ws: seq<hex16>)
    requires ws != [] && NarrowUnit(ws).Some?
    ensures var u := NarrowUnit(ws).value;
      LowsFollow(ws) <==> IsScalar(u.code) && LowsFollow(ws[u.length..])
  {
    var n := NarrowUnit(ws).value.length;
    var rest := ws[n..];
    assert forall i :: 0 <= i < |rest| ==> rest[i] == ws[i + n];
    assert forall i :: n <= i < |ws| ==> ws[i] == rest[i - n];
    if rest != [] && IsLow(rest[0]) {
      assert !LowsFollow(rest);
      assert IsLow(ws[n]) && (ws[n - 1] == ws[0] || ws[n - 1] == ws[1]);
    }
  }

  lemma {:induction false} ScalarIffLowsFollow(ws: seq<hex16>)
    requires NarrowCodes(ws).Some?
    ensures AreScalar(NarrowCodes(ws).value) <==> LowsFollow(ws)
    decreases |ws|
  {
    hide NarrowUnit, LowsFollow;
    if ws == [] {
      assert LowsFollow([]) by { NothingFollows(); }
    } else {
      var u := NarrowUnit(ws).value;
      LowsFollowStep(ws);
      ScalarIffLowsFollow(ws[u.length..]);
      var codes, rest := NarrowCodes(ws).value, NarrowCodes(ws[u.length..]).value;
      assert codes[0] == u.code && codes[1..] == rest;
      assert AreScalar(codes) <==> IsScalar(u.code) && AreScalar(rest);
    }
  }

  lemma NothingFollows()
    ensures LowsFollow([])
  {
  }

  /** The other way round: of what `convert_to_narrow` takes, the wide string comes back exactly when every low
      surrogate follows a high one; otherwise `convert_to_wide` throws. */
  lemma WideOfNarrow(ws: seq<hex16>)
    requires HighsLead(ws)
    ensures Narrow(ws).Some?
    ensures Wide(Narrow(ws).value) == if LowsFollow(ws) then Some(ws) else None
  {
    hide Codes, AllUtf16, AllUtf8, HighsLead, LowsFollow;
    NarrowsIffHighsLead(ws);
    ReadShortest(NarrowCodes(ws).value);
    Utf16OfNarrowCodes(ws);
    ScalarIffLowsFollow(ws);
  }

  /** `convert_to_wide` takes, one after the other, ASCII bytes and sequences of two to four bytes for scalar values,
      overlong ones included, and nothing else. */
  lemma WideUnitIsScalar(s: bytes)
    requires s != []
    ensures var (u, n) := (FirstUnit(s), FirstUnit(s).length);
      && (Wide(s).Some? <==>
            && (s[0] < 0x80 || 2 <= n <= 4) && (u.code < 0xD800 || 0xE000 <= u.code <= 0x10FFFF)
            && Wide(s[n..]).Some?)
  {
    hide Continue, AllUtf16, Codes;
    ContinueNothing(s[0]);
    var n := LeadLength(s[0]);
    assert n == 1 ==> s[1..n] == [];
    assert WideUnit(s).Some? ==> WideUnit(s).value == FirstUnit(s);
    CodesEnd(s);
    if WideUnit(s).Some? {
      CodesStep(s, WideUnit(s).value, []);
      NothingBefore(Codes(s));
    }
  }
}
