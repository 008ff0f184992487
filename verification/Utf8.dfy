/** UTF-8 sequences of one to six bytes, as char_convert.cpp reads and writes them.

    Masks and shifts are written as division and remainder; `MaskRanges` and `PayloadMask` say that this is the same. */
module Utf8 {
  import opened Bytes

  /** `char_bitmatch(c, pos, neg)`. */
  predicate BitMatch(c: bv8, pos: bv8, neg: bv8) { (c & pos) == pos && (c & neg) == 0 }

  /** The bit tests on a lead or continuation byte are range tests. */
  lemma MaskRanges(c: bv8)
    ensures (c & 0x80) == 0 <==> c < 0x80
    ensures BitMatch(c, 0x80, 0x40) <==> 0x80 <= c < 0xC0
    ensures BitMatch(c, 0xC0, 0x20) <==> 0xC0 <= c < 0xE0
    ensures BitMatch(c, 0xE0, 0x10) <==> 0xE0 <= c < 0xF0
    ensures BitMatch(c, 0xF0, 0x08) <==> 0xF0 <= c < 0xF8
    ensures BitMatch(c, 0xF8, 0x04) <==> 0xF8 <= c < 0xFC
    ensures BitMatch(c, 0xFC, 0x02) <==> 0xFC <= c < 0xFE
  {
  }

  /** The payload of a byte under its mask is its distance from the first byte of its range. */
  lemma PayloadMask(c: bv8)
    ensures c & 0x3F == c % 0x40
    ensures 0xC0 <= c < 0xE0 ==> c & 0x1F == c - 0xC0
    ensures 0xE0 <= c < 0xF0 ==> c & 0x0F == c - 0xE0
    ensures 0xF0 <= c < 0xF8 ==> c & 0x07 == c - 0xF0
    ensures 0xF8 <= c < 0xFC ==> c & 0x03 == c - 0xF8
    ensures 0xFC <= c < 0xFE ==> c & 0x01 == c - 0xFC
  {
  }

  predicate IsContinuation(c: byte) { 0x80 <= c < 0xC0 }

  /** `utf8_extract_info`: the length a lead byte announces, and 0 for a byte that cannot lead. */
  function LeadLength(c: byte): nat {
    if c < 0x80 then 1
    else if 0xC0 <= c < 0xE0 then 2
    else if 0xE0 <= c < 0xF0 then 3
    else if 0xF0 <= c < 0xF8 then 4
    else if 0xF8 <= c < 0xFC then 5
    else if 0xFC <= c < 0xFE then 6
    else 0
  }

  /** The lead byte under the mask that `utf8_extract_info` returns. */
  function LeadPayload(c: byte): nat {
    if c < 0x80 then c
    else if 0xC0 <= c < 0xE0 then c - 0xC0
    else if 0xE0 <= c < 0xF0 then c - 0xE0
    else if 0xF0 <= c < 0xF8 then c - 0xF0
    else if 0xF8 <= c < 0xFC then c - 0xF8
    else if 0xFC <= c < 0xFE then c - 0xFC
    else c % 0x80
  }

  /** The low six bits of a continuation byte. */
  function Payload(c: byte): nat { c % 0x40 }

  /** Append the payload of continuation bytes to `code`; None when a byte is not a continuation. */
  function Continue(code: nat, tail: bytes): Option<nat>
    decreases |tail|
  {
    if tail == [] then Some(code)
    else if IsContinuation(tail[0]) then Continue(code * 64 + Payload(tail[0]), tail[1..])
    else None
  }

  /** The sequence at the front of a text as the encoder understands it: its length and code point. A byte
      that does not start a complete sequence stands for itself. */
  datatype Unit = Unit(length: nat, code: nat)

  function FirstUnit(s: bytes): (u: Unit)
    requires s != []
    ensures 1 <= u.length <= |s|
  {
    var n := LeadLength(s[0]);
    if n == 0 || n > |s| then Unit(1, s[0])
    else
      match Continue(LeadPayload(s[0]), s[1..n])
      case Some(code) => Unit(n, code)
      case None => Unit(1, s[0])
  }

  /** What `utf8_append_code` appends: the shortest form for the size of the code. */
  function Utf8Of(code: nat): (r: bytes)
    requires code < 0x1_0000_0000
    ensures r != []
  {
    if code < 0x80 then [code]
    else if code < 0x800 then [0xC0 + code / 64, 0x80 + code % 64]
    else if code < 0x1_0000 then [0xE0 + code / 4096, 0x80 + (code / 64) % 64, 0x80 + code % 64]
    else if code < 0x20_0000 then
      [0xF0 + code / 0x4_0000, 0x80 + (code / 4096) % 64, 0x80 + (code / 64) % 64, 0x80 + code % 64]
    else if code < 0x400_0000 then [0xF8 + code / 0x100_0000] + Tail(code, 4)
    else [0xFC + (code / 0x4000_0000) % 2] + Tail(code, 5)
  }

  /** `n` continuation bytes holding the low bits of `code`. */
  function Tail(code: nat, n: nat): (r: bytes)
    ensures |r| == n
  {
    if n == 0 then [] else Tail(code / 64, n - 1) + [0x80 + code % 64]
  }

  /** Unicode scalar values: section 3 of RFC 3629 forbids the surrogates and everything above U+10FFFF. */
  predicate IsScalar(code: nat) { code < 0xD800 || 0xE000 <= code <= 0x10FFFF }

  /** The length of the well-formed character at the front of `s`, or 0: the ABNF of section 4 of RFC 3629. */
  function WellFormedLength(s: bytes): (n: nat)
    ensures n <= |s|
  {
    if |s| >= 1 && s[0] <= 0x7F then 1
    else if |s| >= 2 && 0xC2 <= s[0] <= 0xDF && IsContinuation(s[1]) then 2
    else if |s| >= 3 && IsContinuation(s[2]) && (
        || (s[0] == 0xE0 && 0xA0 <= s[1] <= 0xBF)
        || (0xE1 <= s[0] <= 0xEC && IsContinuation(s[1]))
        || (s[0] == 0xED && 0x80 <= s[1] <= 0x9F)
        || (0xEE <= s[0] <= 0xEF && IsContinuation(s[1]))) then 3
    else if |s| >= 4 && IsContinuation(s[2]) && IsContinuation(s[3]) && (
        || (s[0] == 0xF0 && 0x90 <= s[1] <= 0xBF)
        || (0xF1 <= s[0] <= 0xF3 && IsContinuation(s[1]))
        || (s[0] == 0xF4 && 0x80 <= s[1] <= 0x8F)) then 4
    else 0
  }

  predicate IsWellFormed(s: bytes) {
    s == [] || (WellFormedLength(s) > 0 && IsWellFormed(s[WellFormedLength(s)..]))
  }

  /** Every lead byte is followed by the continuation bytes it announces; `pending` more are due first. */
  predicate IsComplete(s: bytes, pending: nat) {
    if s == [] then pending == 0
    else if pending > 0 then IsContinuation(s[0]) && IsComplete(s[1..], pending - 1)
    else LeadLength(s[0]) > 0 && IsComplete(s[1..], LeadLength(s[0]) - 1)
  }

  /** `utf8_extract_code`. */
  method ExtractCode(s: bytes, idx: nat, length: nat) returns (code: Option<nat>)
    requires 1 <= length && idx + length <= |s|
    ensures code == Continue(LeadPayload(s[idx]), s[idx + 1..idx + length])
  {
    var num: nat := LeadPayload(s[idx]);
    var i := 1;
    while i < length
      invariant 1 <= i <= length
      invariant Continue(LeadPayload(s[idx]), s[idx + 1..idx + length]) == Continue(num, s[idx + i..idx + length])
    {
      assert s[idx + i..idx + length][1..] == s[idx + i + 1..idx + length];
      if IsContinuation(s[idx + i]) {
        num := num * 64 + Payload(s[idx + i]);
      } else {
        return None;
      }
      i := i + 1;
    }
    return Some(num);
  }

  /** `val >> 6 * k`. */
  function ShiftRight6(val: nat, k: nat): nat {
    if k == 0 then val else ShiftRight6(val / 64, k - 1)
  }

  lemma {:induction false} TailFromFront(val: nat, n: nat)
    requires n > 0
    ensures Tail(val, n) == [0x80 + ShiftRight6(val, n - 1) % 64] + Tail(val, n - 1)
  {
    if n > 1 {
      TailFromFront(val / 64, n - 1);
    }
  }

  /** `utf8_append_code`. */
  method AppendCode(str: bytes, val: nat) returns (out: bytes)
    requires val < 0x1_0000_0000
    ensures out == str + Utf8Of(val)
  {
    var length, first := SequenceInfo(val);
    ghost var whole := Utf8Of(val);
    assert whole == [first] + Tail(val, length - 1) by { TailOfUtf8(val); }
    var buffer := [first];
    var shift: int := length as int - 2;  // in steps of six bits
    var idx := 1;
    while idx < length
      invariant 1 <= idx <= length && shift == length as int - 1 - idx
      invariant whole == buffer + Tail(val, length - idx)
    {
      TailFromFront(val, length - idx);
      buffer := buffer + [0x80 + ShiftRight6(val, shift) % 64];
      shift := shift - 1;
      idx := idx + 1;
    }
    assert buffer + [] == buffer;
    out := str + buffer;
  }

  lemma TailOfUtf8(code: nat)
    requires code < 0x1_0000_0000
    ensures Utf8Of(code) == [Utf8Of(code)[0]] + Tail(code, |Utf8Of(code)| - 1)
  {
    if code < 0x20_0000 {
      var n := |Utf8Of(code)| - 1;
      assert code / 64 / 64 == code / 4096;
      assert n == 1 ==> Tail(code, 1) == Tail(code / 64, 0) + [0x80 + code % 64];
      assert n == 2 ==> Tail(code, 2) == Tail(code / 64, 1) + [0x80 + code % 64];
      assert n == 3 ==> Tail(code, 3) == Tail(code / 64, 2) + [0x80 + code % 64];
    }
  }

  /** `utf8_sequence_info`. */
  method SequenceInfo(val: nat) returns (length: nat, first: byte)
    requires val < 0x1_0000_0000
    ensures length == |Utf8Of(val)| && first == Utf8Of(val)[0]
  {
    if val < 0x80 {
      length, first := 1, val;
    } else if val < 0x800 {
      length, first := 2, 0xC0 + (val / 64) % 32;
    } else if val < 0x1_0000 {
      length, first := 3, 0xE0 + (val / 4096) % 16;
    } else if val < 0x20_0000 {
      length, first := 4, 0xF0 + (val / 0x4_0000) % 8;
    } else if val < 0x400_0000 {
      length, first := 5, 0xF8 + (val / 0x100_0000) % 4;
    } else {
      length, first := 6, 0xFC + (val / 0x4000_0000) % 2;
    }
  }

  lemma UnitOfTwo(s: bytes)
    requires |s| >= 2 && LeadLength(s[0]) == 2 && IsContinuation(s[1])
    ensures FirstUnit(s) == Unit(2, LeadPayload(s[0]) * 64 + Payload(s[1]))
  {
    var p := LeadPayload(s[0]);
    assert s[1..2] == [s[1]] && [s[1]][1..] == [];
    assert Continue(p, [s[1]]) == Continue(p * 64 + Payload(s[1]), []);
  }

  lemma UnitOfThree(s: bytes)
    requires |s| >= 3 && LeadLength(s[0]) == 3 && IsContinuation(s[1]) && IsContinuation(s[2])
    ensures FirstUnit(s) == Unit(3, LeadPayload(s[0]) * 4096 + Payload(s[1]) * 64 + Payload(s[2]))
  {
    var p := LeadPayload(s[0]);
    assert s[1..3] == [s[1], s[2]] && [s[1], s[2]][1..] == [s[2]] && [s[2]][1..] == [];
    assert Continue(p, [s[1], s[2]]) == Continue(p * 64 + Payload(s[1]), [s[2]]);
    assert Continue(p * 64 + Payload(s[1]), [s[2]]) == Continue((p * 64 + Payload(s[1])) * 64 + Payload(s[2]), []);
  }

  lemma UnitOfFour(s: bytes)
    requires |s| >= 4 && LeadLength(s[0]) == 4
    requires IsContinuation(s[1]) && IsContinuation(s[2]) && IsContinuation(s[3])
    ensures FirstUnit(s)
         == Unit(4, LeadPayload(s[0]) * 0x4_0000 + Payload(s[1]) * 4096 + Payload(s[2]) * 64 + Payload(s[3]))
  {
    var p := LeadPayload(s[0]);
    var q := p * 64 + Payload(s[1]);
    assert s[1..4] == [s[1], s[2], s[3]] && [s[1], s[2], s[3]][1..] == [s[2], s[3]];
    assert [s[2], s[3]][1..] == [s[3]] && [s[3]][1..] == [];
    assert Continue(p, [s[1], s[2], s[3]]) == Continue(q, [s[2], s[3]]);
    assert Continue(q, [s[2], s[3]]) == Continue(q * 64 + Payload(s[2]), [s[3]]);
    assert Continue(q * 64 + Payload(s[2]), [s[3]]) == Continue((q * 64 + Payload(s[2])) * 64 + Payload(s[3]), []);
  }

  /** The base-64 digits of a number. */
  lemma Base64Digits(p: nat, x: nat, y: nat, z: nat)
    requires x < 64 && y < 64 && z < 64
    ensures var c := p * 0x4_0000 + x * 4096 + y * 64 + z;
      c % 64 == z && (c / 64) % 64 == y && (c / 4096) % 64 == x && c / 0x4_0000 == p
  {
    var c := p * 0x4_0000 + x * 4096 + y * 64 + z;
    assert c / 64 == p * 4096 + x * 64 + y;
    assert c / 64 / 64 == p * 64 + x;
    assert c / 64 / 64 / 64 == p;
    assert c / 64 / 64 == c / 4096 && c / 64 / 64 / 64 == c / 0x4_0000;
  }

  /** A character that RFC 3629 allows is read as the scalar value whose shortest form it is. */
  lemma WellFormedUnit(s: bytes)
    requires WellFormedLength(s) > 0
    ensures FirstUnit(s).length == WellFormedLength(s)
    ensures IsScalar(FirstUnit(s).code)
    ensures Utf8Of(FirstUnit(s).code) == s[..WellFormedLength(s)]
  {
    var n := WellFormedLength(s);
    if n == 2 {
      WellFormedTwo(s);
    } else if n == 3 {
      WellFormedThree(s);
    } else if n == 4 {
      WellFormedFour(s);
    }
  }

  lemma WellFormedTwo(s: bytes)
    requires WellFormedLength(s) == 2
    ensures FirstUnit(s).length == 2 && IsScalar(FirstUnit(s).code) && Utf8Of(FirstUnit(s).code) == s[..2]
  {
    UnitOfTwo(s);
    Base64Digits(0, 0, LeadPayload(s[0]), Payload(s[1]));
  }

  lemma WellFormedThree(s: bytes)
    requires WellFormedLength(s) == 3
    ensures FirstUnit(s).length == 3 && IsScalar(FirstUnit(s).code) && Utf8Of(FirstUnit(s).code) == s[..3]
  {
    UnitOfThree(s);
    Base64Digits(0, LeadPayload(s[0]), Payload(s[1]), Payload(s[2]));
  }

  lemma FourByteForm(p: nat, x: nat, y: nat, z: nat)
    requires p < 8 && x < 64 && y < 64 && z < 64
    requires 0x1_0000 <= p * 0x4_0000 + x * 4096 + y * 64 + z < 0x20_0000
    ensures Utf8Of(p * 0x4_0000 + x * 4096 + y * 64 + z) == [0xF0 + p, 0x80 + x, 0x80 + y, 0x80 + z]
  {
    Base64Digits(p, x, y, z);
  }

  lemma FourByteRange(s: bytes)
    requires WellFormedLength(s) == 4
    ensures |s| >= 4 && LeadLength(s[0]) == 4 && IsContinuation(s[1]) && IsContinuation(s[2]) && IsContinuation(s[3])
    ensures s[0] == 0xF0 + LeadPayload(s[0]) && LeadPayload(s[0]) < 8
    ensures forall i :: 1 <= i < 4 ==> s[i] == 0x80 + Payload(s[i])
    ensures var code := LeadPayload(s[0]) * 0x4_0000 + Payload(s[1]) * 4096 + Payload(s[2]) * 64 + Payload(s[3]);
      0x1_0000 <= code <= 0x10FFFF
  {
  }

  lemma WellFormedFour(s: bytes)
    requires WellFormedLength(s) == 4
    ensures FirstUnit(s).length == 4 && IsScalar(FirstUnit(s).code) && Utf8Of(FirstUnit(s).code) == s[..4]
  {
    hide WellFormedLength, Utf8Of, FirstUnit, LeadLength, IsContinuation, LeadPayload, Payload;
    FourByteRange(s);
    UnitOfFour(s);
    FourByteForm(LeadPayload(s[0]), Payload(s[1]), Payload(s[2]), Payload(s[3]));
    assert s[..4] == [s[0], s[1], s[2], s[3]];
  }

  /** The shortest form of a scalar value is well-formed and is read back as that value. */
  lemma ScalarUnit(code: nat, rest: bytes)
    requires IsScalar(code)
    ensures WellFormedLength(Utf8Of(code) + rest) == |Utf8Of(code)|
    ensures FirstUnit(Utf8Of(code) + rest) == Unit(|Utf8Of(code)|, code)
  {
    if 0x80 <= code < 0x800 {
      ScalarTwo(code, rest);
    } else if 0x800 <= code < 0x1_0000 {
      ScalarThree(code, rest);
    } else if 0x1_0000 <= code {
      ScalarFour(code, rest);
    }
  }

  lemma ScalarTwo(code: nat, rest: bytes)
    requires 0x80 <= code < 0x800
    ensures WellFormedLength(Utf8Of(code) + rest) == |Utf8Of(code)| == 2
    ensures FirstUnit(Utf8Of(code) + rest) == Unit(2, code)
  {
    var s := Utf8Of(code) + rest;
    assert s[..2] == [0xC0 + code / 64, 0x80 + code % 64];
    UnitOfTwo(s);
  }

  lemma ScalarThree(code: nat, rest: bytes)
    requires 0x800 <= code < 0x1_0000 && IsScalar(code)
    ensures WellFormedLength(Utf8Of(code) + rest) == |Utf8Of(code)| == 3
    ensures FirstUnit(Utf8Of(code) + rest) == Unit(3, code)
  {
    hide FirstUnit, WellFormedLength;
    var s := Utf8Of(code) + rest;
    var x, y, z := code / 4096, (code / 64) % 64, code % 64;
    Recompose(code);
    assert code / 0x4_0000 == 0 && x % 64 == x;
    assert s[0] == 0xE0 + x && s[1] == 0x80 + y && s[2] == 0x80 + z;
    ThreeBytes(s, x, y, z);
    UnitOfThree(s);
  }

  lemma ThreeBytes(s: bytes, x: nat, y: nat, z: nat)
    requires |s| >= 3 && x < 16 && y < 64 && z < 64 && s[0] == 0xE0 + x && s[1] == 0x80 + y && s[2] == 0x80 + z
    requires IsScalar(x * 4096 + y * 64 + z) && x * 4096 + y * 64 + z >= 0x800
    ensures WellFormedLength(s) == 3
    ensures LeadLength(s[0]) == 3 && LeadPayload(s[0]) == x && Payload(s[1]) == y && Payload(s[2]) == z
  {
  }

  lemma Recompose(c: nat)
    ensures c == (c / 0x4_0000) * 0x4_0000 + ((c / 4096) % 64) * 4096 + ((c / 64) % 64) * 64 + c % 64
  {
    assert c / 64 / 64 == c / 4096 && c / 64 / 64 / 64 == c / 0x4_0000;
  }

  lemma ScalarFour(code: nat, rest: bytes)
    requires 0x1_0000 <= code <= 0x10FFFF
    ensures WellFormedLength(Utf8Of(code) + rest) == |Utf8Of(code)| == 4
    ensures FirstUnit(Utf8Of(code) + rest) == Unit(4, code)
  {
    var s := Utf8Of(code) + rest;
    assert s[..4] == [0xF0 + code / 0x4_0000, 0x80 + (code / 4096) % 64, 0x80 + (code / 64) % 64, 0x80 + code % 64];
    Recompose(code);
    var x, y, z := (code / 4096) % 64, (code / 64) % 64, code % 64;
    assert (0x80 + x) % 64 == x && (0x80 + y) % 64 == y && (0x80 + z) % 64 == z;
    UnitOfFour(s);
  }

  // ---- one unit, byte by byte -----------------------------------------------------------------------------------

  lemma {:induction false} ContinueDigits(code: nat, tail: bytes)
    ensures Continue(code, tail).Some? <==> forall i :: 0 <= i < |tail| ==> 0x80 <= tail[i] <= 0xBF
    ensures Continue(code, tail).Some? ==>
      && ShiftRight6(Continue(code, tail).value, |tail|) == code
      && forall i :: 0 <= i < |tail| ==>
           ShiftRight6(Continue(code, tail).value, |tail| - 1 - i) % 64 == tail[i] - 0x80
    decreases |tail|
  {
    if tail != [] {
      var next := code * 64 + Payload(tail[0]);
      ContinueDigits(next, tail[1..]);
      assert forall i :: 1 <= i < |tail| ==> tail[i] == tail[1..][i - 1];
      if Continue(code, tail).Some? {
        ShiftOnce(Continue(code, tail).value, |tail| - 1);
        assert next / 64 == code && next % 64 == tail[0] - 0x80;
      }
    }
  }

  lemma {:induction false} ShiftOnce(val: nat, k: nat)
    ensures ShiftRight6(val, k + 1) == ShiftRight6(val, k) / 64
  {
    if k > 0 {
      ShiftOnce(val / 64, k - 1);
    }
  }

  /** Where the lead bytes of a length start. */
  function LeadBase(n: nat): byte
    requires 2 <= n <= 6
  {
    if n == 2 then 0xC0 else if n == 3 then 0xE0 else if n == 4 then 0xF0 else if n == 5 then 0xF8 else 0xFC
  }

  /** `n` bytes: a lead byte of that length and continuation bytes. */
  predicate IsSequence(s: bytes, n: nat) {
    && 2 <= n <= 6 && n <= |s|
    && LeadBase(n) <= s[0] < (if n == 6 then 0xFE else LeadBase(n + 1))
    && forall i :: 1 <= i < n ==> 0x80 <= s[i] <= 0xBF
  }

  /** A unit is a sequence, read six bits at a time, or a byte that stands for itself. */
  lemma UnitIsRead(s: bytes, n: nat)
    requires s != []
    ensures IsSequence(s, n) ==>
      var u := FirstUnit(s);
      && u.length == n && ShiftRight6(u.code, n - 1) == s[0] - LeadBase(n)
      && forall i :: 1 <= i < n ==> ShiftRight6(u.code, n - 1 - i) % 64 == s[i] - 0x80
    ensures (forall m :: 2 <= m <= 6 ==> !IsSequence(s, m)) ==> FirstUnit(s) == Unit(1, s[0])
  {
    hide Continue, ShiftRight6;
    var k := LeadLength(s[0]);
    if 2 <= k <= |s| {
      ContinueDigits(LeadPayload(s[0]), s[1..k]);
      assert forall i :: 1 <= i < k ==> s[i] == s[1..k][i - 1];
      assert IsSequence(s, k) <==> Continue(LeadPayload(s[0]), s[1..k]).Some?;
    } else if k == 1 {
      assert Continue(LeadPayload(s[0]), s[1..1]) == Some(s[0]) by { ContinueNothing(s[0]); }
    }
  }

  lemma ContinueNothing(code: nat)
    ensures Continue(code, []) == Some(code)
  {
  }

  lemma {:induction false} ContinueTail(code: nat, val: nat, n: nat)
    requires ShiftRight6(val, n) == code
    ensures Continue(code, Tail(val, n)) == Some(val)
    decreases n
  {
    if n > 0 {
      TailFromFront(val, n);
      ShiftOnce(val, n - 1);
      var d := ShiftRight6(val, n - 1) % 64;
      assert Tail(val, n)[0] == 0x80 + d && Tail(val, n)[1..] == Tail(val, n - 1);
      assert (0x80 + d) % 64 == d;
      ContinueTail(ShiftRight6(val, n - 1), val, n - 1);
    }
  }

  lemma Shifts(val: nat)
    ensures ShiftRight6(val, 4) == val / 0x100_0000 && ShiftRight6(val, 5) == val / 0x4000_0000
  {
    assert ShiftRight6(val, 4) == ShiftRight6(val / 64, 3) == ShiftRight6(val / 64 / 64, 2);
    assert ShiftRight6(val / 64 / 64, 2) == ShiftRight6(val / 64 / 64 / 64, 1) == ShiftRight6(val / 64 / 64 / 64 / 64, 0);
    ShiftOnce(val, 4);
  }

  /** The forms of five and six bytes are read back as well. */
  lemma LongFormIsRead(code: nat, rest: bytes)
    requires 0x20_0000 <= code < 0x8000_0000
    ensures FirstUnit(Utf8Of(code) + rest) == Unit(if code < 0x400_0000 then 5 else 6, code)
  {
    hide Continue, Tail, ShiftRight6;
    var n := if code < 0x400_0000 then 5 else 6;
    var s := Utf8Of(code) + rest;
    Shifts(code);
    ContinueTail(if n == 5 then code / 0x100_0000 else code / 0x4000_0000, code, n - 1);
    assert s[1..n] == Tail(code, n - 1);
  }
}
