/** Decimal text for scores. Redis sends every score of a WITHSCORES reply as
    text and the client parses it back; scores are integer nanoseconds here,
    so the text is a plain (optionally negative) decimal integer. */
module Decimal {
  import opened Base

  const Zero: Byte := 48   // '0'
  const Minus: Byte := 45  // '-'

  predicate IsDigit(b: Byte) { Zero <= b <= Zero + 9 }

  predicate AllDigits(s: Bytes) { forall i :: 0 <= i < |s| ==> IsDigit(s[i]) }

  /** The digits of n, most significant first, without leading zeros. */
  function FormatNat(n: nat): (s: Bytes)
    ensures 0 < |s| && AllDigits(s)
    ensures n < 10 <==> |s| == 1
    decreases n
  {
    if n < 10 then [Zero + n] else FormatNat(n / 10) + [Zero + n % 10]
  }

  /** The number a string of digits denotes. */
  function Value(s: Bytes): nat
    requires AllDigits(s)
  {
    if s == [] then 0 else Value(s[..|s| - 1]) * 10 + (s[|s| - 1] - Zero)
  }

  /** A non-empty run of digits, or nothing. */
  function ParseNat(s: Bytes): Option<nat>
  {
    if 0 < |s| && AllDigits(s) then Some(Value(s)) else None
  }

  /** The text a server writes for a score. */
  function Format(x: int): Bytes
  {
    if x < 0 then [Minus] + FormatNat(-x) else FormatNat(x)
  }

  /** The client's reading of a score's text; None for anything that is not
      an optional minus sign followed by at least one digit. */
  function Parse(s: Bytes): (r: Option<int>)
    ensures r.Some? ==> 0 < |s|
    ensures 0 < |s| && AllDigits(s) ==> r == Some(Value(s))
  {
    if 0 < |s| && s[0] == Minus then
      match ParseNat(s[1..])
      case Some(n) => Some(0 - n)
      case None => None
    else
      match ParseNat(s)
      case Some(n) => Some(n)
      case None => None
  }

  lemma {:induction false} ValueOfFormat(n: nat)
    ensures Value(FormatNat(n)) == n
    decreases n
  {
    if n >= 10 {
      var s := FormatNat(n);
      assert s[..|s| - 1] == FormatNat(n / 10);
      ValueOfFormat(n / 10);
    }
  }

  /** Reading back the digits written for n gives n. */
  lemma ParseNatFormat(n: nat)
    ensures ParseNat(FormatNat(n)) == Some(n)
  {
    ValueOfFormat(n);
  }

  /** Parsing what the server formatted gives back the score. */
  lemma ParseFormat(x: int)
    ensures Parse(Format(x)) == Some(x)
  {
    if x < 0 {
      var digits := FormatNat(-x);
      ValueOfFormat(-x);
      assert ([Minus] + digits)[1..] == digits;
      assert !IsDigit(Minus);
      assert ParseNat(digits) == Some(-x);
    } else {
      var digits := FormatNat(x);
      ValueOfFormat(x);
      assert IsDigit(digits[0]);
    }
  }
}
