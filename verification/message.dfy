/** The queued message and the bytes it is stored as. The member bytes carry
    only the identifier and the payload; the deadline travels separately as
    the entry's score, so it is not part of a message's identity. */
module Message {
  import opened Base
  import opened Decimal

  datatype Msg = Msg(id: Bytes, data: Bytes, deadline: int)

  const Colon: Byte := 58  // ':'

  /** The member bytes of m: the length of the identifier in decimal, a colon,
      the identifier, then the payload. The deadline is not serialised. */
  function Marshal(m: Msg): Bytes
  {
    FormatNat(|m.id|) + [Colon] + m.id + m.data
  }

  /** Reads the decimal length prefix of b from index i on, n being the
      value of the digits before i, then splits the rest after the colon
      into identifier and payload. None when the prefix is empty, holds a
      byte that is neither a digit nor the colon, has no colon, or
      announces more identifier bytes than there are. */
  function DecodeFrom(b: Bytes, i: nat, n: nat): Option<Msg>
    decreases |b| - i
  {
    if i >= |b| then None
    else if b[i] == Colon then
      if i == 0 || |b| < i + 1 + n then None
      else Some(Msg(b[i + 1..i + 1 + n], b[i + 1 + n..], 0))
    else if IsDigit(b[i]) then DecodeFrom(b, i + 1, n * 10 + (b[i] - Zero))
    else None
  }

  /** The message that member bytes denote, with a zero deadline (the
      consumer sets the deadline from the score); None for malformed bytes. */
  function Unmarshal(b: Bytes): Option<Msg>
  {
    DecodeFrom(b, 0, 0)
  }

  /** Reading the digits of a prefix one by one accumulates their value. */
  lemma {:induction false} DecodeDigits(b: Bytes, digits: Bytes, i: nat)
    requires AllDigits(digits) && i <= |digits| && |digits| < |b| && b[..|digits|] == digits
    ensures DecodeFrom(b, i, Value(digits[..i])) == DecodeFrom(b, |digits|, Value(digits))
    decreases |digits| - i
  {
    if i < |digits| {
      assert b[i] == digits[i];
      assert digits[..i + 1][..i] == digits[..i];
      assert Value(digits[..i + 1]) == Value(digits[..i]) * 10 + (digits[i] - Zero);
      DecodeDigits(b, digits, i + 1);
    } else {
      assert digits[..i] == digits;
    }
  }

  /** Decoding the stored bytes gives back the identifier and the payload. */
  lemma UnmarshalMarshal(m: Msg)
    ensures Unmarshal(Marshal(m)) == Some(m.(deadline := 0))
  {
    var digits := FormatNat(|m.id|);
    var b := Marshal(m);
    assert b == digits + ([Colon] + m.id + m.data);
    assert b[..|digits|] == digits;
    assert digits[..0] == [];
    DecodeDigits(b, digits, 0);
    ValueOfFormat(|m.id|);
    assert b[|digits|] == Colon;
    assert b[|digits| + 1..|digits| + 1 + |m.id|] == m.id;
    assert b[|digits| + 1 + |m.id|..] == m.data;
  }

  /** Two messages are the same member exactly when their identifiers and
      payloads agree, whatever their deadlines. */
  lemma SameMemberIff(m1: Msg, m2: Msg)
    ensures Marshal(m1) == Marshal(m2) <==> m1.id == m2.id && m1.data == m2.data
  {
    if Marshal(m1) == Marshal(m2) {
      UnmarshalMarshal(m1);
      UnmarshalMarshal(m2);
    }
  }
}
