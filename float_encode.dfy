/**
 * `_convert_card_to_num` as written: `int((suit.value + num / 13) * 13)`,
 * evaluated in IEEE 754 binary64 arithmetic (round to nearest, ties to even)
 * and truncated by `int`. For most cards this is the exact id, but for two
 * cards the rounding lands just below the integer and `int` truncates to the
 * id of the previous card. Module Cards defines the exact mapping the deck
 * uses instead.
 */
module FloatEncode {
  import opened Wrappers
  import opened Cards

  /** 2^47, the smallest scale factor used below. */
  const MinScale: real := 140737488355328.0

  /** The integer nearest to y, ties going to the even one. */
  function RoundHalfEven(y: real): (n: int)
    ensures n as real - 0.5 <= y <= n as real + 0.5
  {
    var f := y.Floor;
    var d := y - f as real;
    if d < 0.5 then f
    else if d > 0.5 then f + 1
    else if f % 2 == 0 then f
    else f + 1
  }

  /**
   * 2^(52 - e), where 2^e <= x < 2^(e + 1): multiplying x by it puts x's 53
   * significant bits in front of the binary point. Covers 1/16 <= x < 64.
   */
  function Scale(x: real): (s: real)
    requires 1.0 / 16.0 <= x < 64.0
    ensures MinScale <= s
    ensures 4503599627370496.0 <= x * s < 9007199254740992.0
  {
    if x >= 32.0 then 140737488355328.0
    else if x >= 16.0 then 281474976710656.0
    else if x >= 8.0 then 562949953421312.0
    else if x >= 4.0 then 1125899906842624.0
    else if x >= 2.0 then 2251799813685248.0
    else if x >= 1.0 then 4503599627370496.0
    else if x >= 0.5 then 9007199254740992.0
    else if x >= 0.25 then 18014398509481984.0
    else if x >= 0.125 then 36028797018963968.0
    else 72057594037927936.0
  }

  /** The binary64 value nearest to x, for 1/16 <= x < 64. */
  function ToDouble(x: real): (d: real)
    requires 1.0 / 16.0 <= x < 64.0
    ensures x - 1.0 / MinScale <= d <= x + 1.0 / MinScale
  {
    var s := Scale(x);
    var n := RoundHalfEven(x * s);
    assert (n as real - 0.5) / s <= x <= (n as real + 0.5) / s;
    n as real / s
  }

  /**
   * The float expression of `_convert_card_to_num`, for a card of the deck.
   * It is never above the intended id, and at most one below it.
   */
  function EncodeAsWritten(c: Card): (id: int)
    requires ValidCard(c)
    ensures Encode(c) - 1 <= id <= Encode(c)
  {
    var q := ToDouble(c.num as real / 13.0);
    var a := ToDouble(c.suit.Value() as real + q);
    var m := ToDouble(a * 13.0);
    var exact := Encode(c) as real;
    assert exact == (c.suit.Value() as real + c.num as real / 13.0) * 13.0;
    assert exact - 1.0 < m < exact + 1.0;
    m.Floor
  }

  /**
   * DIAMOND 2 and SPADE 4 come out one too low. The double nearest 2/13
   * lies slightly above it, but 1 + q lands exactly halfway between two
   * doubles and rounds down to the even significand; 13 times that falls
   * just under 15, so `int` truncates to 14, the id of DIAMOND 1. With 4/13
   * and 2 + q the same significands give 29, the id of SPADE 3.
   */
  lemma EncodeAsWrittenMisses()
    ensures EncodeAsWritten(Card(Diamond, 2)) == 14 && Encode(Card(Diamond, 2)) == 15
    ensures Decode(EncodeAsWritten(Card(Diamond, 2))) == Some(Card(Diamond, 1))
    ensures EncodeAsWritten(Card(Spade, 4)) == 29 && Encode(Card(Spade, 4)) == 30
    ensures Decode(EncodeAsWritten(Card(Spade, 4))) == Some(Card(Spade, 3))
  {
    var q1 := ToDouble(2.0 / 13.0);
    assert (2.0 / 13.0 * 36028797018963968.0).Floor == 5542891849071379;
    assert q1 == 5542891849071380.0 / 36028797018963968.0;
    var a1 := ToDouble(1.0 + q1);
    assert ((1.0 + q1) * 4503599627370496.0).Floor == 5196461108504418;
    assert a1 == 5196461108504418.0 / 4503599627370496.0;
    var m1 := ToDouble(a1 * 13.0);
    assert (a1 * 13.0 * 562949953421312.0).Floor == 8444249301319679;
    assert m1 == 8444249301319679.0 / 562949953421312.0;
    assert m1.Floor == 14;

    var q2 := ToDouble(4.0 / 13.0);
    assert (4.0 / 13.0 * 18014398509481984.0).Floor == 5542891849071379;
    assert q2 == 5542891849071380.0 / 18014398509481984.0;
    var a2 := ToDouble(2.0 + q2);
    assert ((2.0 + q2) * 2251799813685248.0).Floor == 5196461108504418;
    assert a2 == 5196461108504418.0 / 2251799813685248.0;
    var m2 := ToDouble(a2 * 13.0);
    assert (a2 * 13.0 * 281474976710656.0).Floor == 8444249301319679;
    assert m2 == 8444249301319679.0 / 281474976710656.0;
    assert m2.Floor == 29;
  }
}
