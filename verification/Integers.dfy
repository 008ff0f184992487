/** Decimal integers as the encoder writes them and as `strtoul` and `strtoull` read them. */
module Integers {
  import opened Bytes
  import opened Json

  const TWO_TO_THE_64: int := 0x1_0000_0000_0000_0000

  function Digits(n: nat): (r: bytes)
    ensures r != [] && forall i :: 0 <= i < |r| ==> IsDigit(r[i])
  {
    if n < 10 then [ZERO + n] else Digits(n / 10) + [ZERO + n % 10]
  }

  function Magnitude(n: int64): nat { if n < 0 then -(n as int) else n as int }

  /** `ostream << int64_t`. */
  function Show(n: int64): bytes {
    (if n < 0 then [MINUS] else []) + Digits(Magnitude(n))
  }

  function DigitValue(c: byte): nat { if IsDigit(c) then c - ZERO else 0 }

  function Natural(text: bytes): nat {
    if text == [] then 0 else Natural(text[..|text| - 1]) * 10 + DigitValue(text[|text| - 1])
  }

  /** The bits of a 64-bit unsigned integer as `int64_t`. */
  function ToSigned(u: nat): int64
    requires u < TWO_TO_THE_64
  {
    if u <= INT64_MAX then u else u - TWO_TO_THE_64
  }

  /** `strtoul` on a sign and digits: negation is modulo 2^64, and a magnitude out of range saturates. */
  function Strtoul(text: bytes): (u: nat)
    ensures u < TWO_TO_THE_64
  {
    var minus := text != [] && text[0] == MINUS;
    var magnitude := Natural(if minus then text[1..] else text);
    if magnitude >= TWO_TO_THE_64 then TWO_TO_THE_64 - 1
    else if minus && magnitude > 0 then TWO_TO_THE_64 - magnitude
    else magnitude
  }

  lemma {:induction false} NaturalOfDigits(n: nat)
    ensures Natural(Digits(n)) == n
  {
    var d := Digits(n);
    if n >= 10 {
      NaturalOfDigits(n / 10);
      assert d[..|d| - 1] == Digits(n / 10);
    } else {
      assert d[..0] == [];
    }
  }

  /** No leading zero, except in "0" itself. */
  lemma {:induction false} NoLeadingZero(n: nat)
    ensures Digits(n)[0] == ZERO ==> n == 0
  {
    if n >= 10 {
      NoLeadingZero(n / 10);
    }
  }

  /** Every int64 survives: a negative one is printed with its sign and read back modulo 2^64. */
  lemma ReadsBack(n: int64)
    ensures ToSigned(Strtoul(Show(n))) == n
  {
    NaturalOfDigits(Magnitude(n));
    assert n < 0 ==> Show(n)[1..] == Digits(Magnitude(n));
    assert n >= 0 ==> Show(n) == Digits(Magnitude(n)) && Show(n)[0] != MINUS;
  }

  /** Decimal digits from the left, after `before`. */
  function FromTheLeft(text: bytes, before: nat): nat
    decreases |text|
  {
    if text == [] then before
    else
      FromTheLeft(text[1..], before * 10 + if '0' as int <= text[0] <= '9' as int then text[0] - '0' as int else 0)
  }

  lemma {:induction false} LastDigit(text: bytes, before: nat)
    requires text != []
    ensures FromTheLeft(text, before)
         == FromTheLeft(text[..|text| - 1], before) * 10 + DigitValue(text[|text| - 1])
    decreases |text|
  {
    if |text| > 1 {
      LastDigit(text[1..], before * 10 + DigitValue(text[0]));
      assert text[1..][..|text| - 2] == text[..|text| - 1][1..];
    } else {
      assert text[1..] == [] && text[..0] == [];
    }
  }

  /** The value of a numeral is the same from either end. */
  lemma {:induction false} NaturalFromTheLeft(text: bytes)
    ensures Natural(text) == FromTheLeft(text, 0)
    decreases |text|
  {
    if text != [] {
      LastDigit(text, 0);
      NaturalFromTheLeft(text[..|text| - 1]);
    }
  }
}
