/**
 * The card codec of video_poker/card_deck.py: the four suits, the (suit, num)
 * card record, and the bijection between a card id in 1..52 and a card.
 * The arithmetic is exact integer division and remainder (the source computes
 * it with floating point, and its encode gives the wrong id for two cards;
 * see module FloatEncode).
 */
module Cards {
  import opened Wrappers

  /** CardDeck.NUM_CARDS */
  const NumCards: int := 52
  /** CardDeck.NUM_PER_SUIT */
  const NumPerSuit: int := 13

  /** The Suits enum with its integer values HEART=0 .. CLUB=3. */
  datatype Suit = Heart | Diamond | Spade | Club {
    function Value(): (v: int)
      ensures 0 <= v <= 3
    {
      match this
      case Heart => 0
      case Diamond => 1
      case Spade => 2
      case Club => 3
    }
  }

  /** `Suits(v)`: the enum member whose value is v; None where Python raises ValueError. */
  function SuitOf(v: int): (s: Option<Suit>)
    ensures s.Some? <==> 0 <= v <= 3
    ensures s.Some? ==> s.value.Value() == v
  {
    if v == 0 then Some(Heart)
    else if v == 1 then Some(Diamond)
    else if v == 2 then Some(Spade)
    else if v == 3 then Some(Club)
    else None
  }

  /** The CARD namedtuple. Python does not check `num`, so neither does the type. */
  datatype Card = Card(suit: Suit, num: int)

  /** A card of the 52-card deck: its rank lies in 1..13. */
  predicate ValidCard(c: Card) {
    1 <= c.num <= NumPerSuit
  }

  /**
   * `_get_card_from_num`: suit index floor((id - 1) / 13), rank (id - 1) mod 13 + 1.
   * Both are floor operations, which Dafny's `/` and `%` by a positive divisor are.
   * An id whose suit index is not 0..3 yields no card.
   */
  function Decode(id: int): (c: Option<Card>)
    ensures c.Some? <==> 1 <= id <= NumCards
    ensures c.Some? ==> ValidCard(c.value)
  {
    match SuitOf((id - 1) / NumPerSuit)
    case None => None
    case Some(s) => Some(Card(s, (id - 1) % NumPerSuit + 1))
  }

  /** `_convert_card_to_num`: suit value * 13 + num. */
  function Encode(c: Card): (id: int)
    ensures ValidCard(c) <==> (c.suit.Value() * NumPerSuit < id <= c.suit.Value() * NumPerSuit + NumPerSuit)
    ensures ValidCard(c) ==> 1 <= id <= NumCards
  {
    c.suit.Value() * NumPerSuit + c.num
  }

  /** Every id of the deck decodes to a card that encodes back to that id. */
  lemma EncodeDecode(id: int)
    requires 1 <= id <= NumCards
    ensures Decode(id).Some? && Encode(Decode(id).value) == id
  {
    var q, r := (id - 1) / NumPerSuit, (id - 1) % NumPerSuit;
    assert id - 1 == q * NumPerSuit + r;
  }

  /** Every card of the deck encodes to an id that decodes back to that card. */
  lemma DecodeEncode(c: Card)
    requires ValidCard(c)
    ensures Decode(Encode(c)) == Some(c)
  {
    var id := Encode(c);
    var v := c.suit.Value();
    assert id - 1 == v * NumPerSuit + (c.num - 1);
    assert (id - 1) / NumPerSuit == v;
    assert (id - 1) % NumPerSuit == c.num - 1;
    assert SuitOf(v) == Some(c.suit);
  }

  /** Decoding is one-to-one on 1..52. */
  lemma DecodeInjective(a: int, b: int)
    requires 1 <= a <= NumCards && 1 <= b <= NumCards
    requires Decode(a) == Decode(b)
    ensures a == b
  {
    EncodeDecode(a);
    EncodeDecode(b);
  }

  /** Every card of the deck is the decoding of exactly one id in 1..52. */
  lemma DecodeOnto(c: Card)
    requires ValidCard(c)
    ensures exists id :: 1 <= id <= NumCards && Decode(id) == Some(c)
    ensures forall id :: 1 <= id <= NumCards && Decode(id) == Some(c) ==> id == Encode(c)
  {
    DecodeEncode(c);
    forall id | 1 <= id <= NumCards && Decode(id) == Some(c)
      ensures id == Encode(c)
    {
      EncodeDecode(id);
    }
  }

  /** The fixed points of the mapping that the deck's callers rely on. */
  lemma CodecExamples()
    ensures Decode(10) == Some(Card(Heart, 10))
    ensures Decode(14) == Some(Card(Diamond, 1))
    ensures Decode(52) == Some(Card(Club, 13))
    ensures Encode(Card(Spade, 1)) == 27
    ensures Decode(0) == None && Decode(53) == None
  {
  }

  /** Encode does not check the rank, so an out-of-range rank aliases another card. */
  lemma EncodeAliasesOutOfRangeRank()
    ensures Encode(Card(Heart, 14)) == Encode(Card(Diamond, 1)) == 14
  {
  }
}
