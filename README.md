# Video-poker card deck, modelled in Dafny

This project models `CardDeck` from `video_poker/card_deck.py`, the 52-card deck of a video-poker game. It has two parts.

- **The card codec.** This is the bijection between a card id in 1..52 and a `(suit, num)` card. Suits are `HEART`=0, `DIAMOND`=1, `SPADE`=2 and `CLUB`=3. Decoding takes suit `(id-1) div 13` and num `(id-1) mod 13 + 1`. Encoding computes `suit*13 + num`. This is module `Cards`.
- **The deck object.** It holds a list of the ids still in the deck:
  - `reset_deck` refills the list with 1..52 and then shuffles it. The code shuffles on every reset, and the model follows the code.
  - `shuffle` reorders the list.
  - `draw` raises on an empty deck. Otherwise it removes one chosen id and returns its card.
  - `remove_card` raises when the card's id is absent. Otherwise it removes that id.
  - `replace_card` raises when the card's id is present. Otherwise it inserts the id at a chosen position.
  - `peek_deck` decodes the list back into cards, in storage order.

  This is class `Deck.CardDeck`. Its field `deck: seq<int>` is reassigned by each method, and `Valid()` states the deck's invariant: every id is in 1..52 and no id occurs twice. Pure functions on `seq<int>` describe the new contents, and the lemmas about them carry the properties.

Randomness becomes arguments supplied by the caller:
- `random.shuffle` is the Fisher–Yates loop. For each position i, from len-1 down to 1, the caller supplies the swap index j in 0..i.
- `random.choice` becomes a position in the deck.
- `random.randint(0, len)` becomes an insertion position in 0..len.

The source computes the codec with floating point. The deck model uses the exact integer mapping. Module `FloatEncode` models the source's float encode as written, in IEEE 754 binary64 rounding, and shows that it gives the wrong id for two cards (see Findings).

The model keeps these behaviours of the code:
- reset shuffles;
- encode does not check the rank, so HEART 14 encodes to 14, the id of DIAMOND 1;
- decoding an id outside 1..52 returns no card instead of raising;
- all three deck errors are the same `RuntimeError` in the code, told apart only by their message. The model gives them as `DeckEmpty`, `CardNotInDeck` and `CardAlreadyInDeck`.

Files: `wrappers.dfy` (Option, Result, Outcome), `cards.dfy` (module `Cards`), `deck.dfy` (module `Deck`), `float_encode.dfy` (module `FloatEncode`).

## Model

| member | source | states |
|---|---|---|
| Cards.Suit.Value | video_poker/card_deck.py:16-20 | every suit's enum value lies in 0..3 |
| Cards.SuitOf | video_poker/card_deck.py:104-106 | `Suits(v)` yields a suit exactly when v is in 0..3, and that suit's value is v |
| Cards.Decode | video_poker/card_deck.py:93-107 | decoding yields a card exactly when the id is in 1..52 (0 and 53 yield none), and every card it yields has num in 1..13 |
| Cards.Encode | video_poker/card_deck.py:109-112 | a card has num in 1..13 exactly when its id falls in its suit's block of 13 ids; such a card's id lies in 1..52 |
| Cards.EncodeDecode | video_poker/card_deck.py:93-112 | for every id in 1..52, encoding the decoded card gives the id back |
| Cards.DecodeEncode | video_poker/card_deck.py:93-112 | for every suit and num in 1..13, decoding the encoded id gives the same card back |
| Cards.DecodeInjective | video_poker/card_deck.py:93-107 | two ids in 1..52 that decode to the same card are equal |
| Cards.DecodeOnto | video_poker/card_deck.py:93-107 | every card with num in 1..13 is the decoding of one id in 1..52 and of no other |
| Cards.CodecExamples | video_poker/card_deck.py:93-112 | id 10 is HEART 10, 14 is DIAMOND 1, 52 is CLUB 13, SPADE 1 is 27, and ids 0 and 53 decode to no card |
| Cards.EncodeAliasesOutOfRangeRank | video_poker/card_deck.py:109-112 | with no rank check, HEART 14 and DIAMOND 1 share the id 14 |
| Deck.FullDeck | video_poker/card_deck.py:35 | the refilled list has 52 entries, and entry i holds id i+1 |
| Deck.RemoveFirst | video_poker/card_deck.py:64 | `list.remove` shortens a list that holds x by one. Python raises `ValueError` for a list without x; that case never arises, because `draw` removes an id it has just taken from the list (line 63) and `remove_card` tests membership first (line 75). In that case the function leaves the list unchanged |
| Deck.RemoveFirstCounts | video_poker/card_deck.py:64 | `list.remove` takes exactly one occurrence of x out of the multiset of ids |
| Deck.InsertAt | video_poker/card_deck.py:91 | `list.insert(pos, x)` gives a list one longer with x at pos, the entries before pos unchanged and the rest shifted up by one |
| Deck.Swap | video_poker/card_deck.py:53 | one swap of `random.shuffle` exchanges the entries at i and j and leaves every other entry and the length unchanged |
| Deck.ShuffleDown | video_poker/card_deck.py:53 | the swap steps for positions k-1 down to 1 keep the length and leave every position from k on untouched |
| Deck.Shuffled | video_poker/card_deck.py:53 | `random.shuffle` with given choices keeps the length and the multiset of ids |
| Deck.DecodeAll | video_poker/card_deck.py:43-46 | the list that peek builds has one card per id, each the decoding of its id and with num in 1..13 |
| Deck.RemoveFirstSkips | video_poker/card_deck.py:64 | `list.remove` passes over a prefix that does not hold x and leaves that prefix untouched |
| Deck.FullDeckHoldsEveryId | video_poker/card_deck.py:34-35 | the refilled list keeps the invariant and holds exactly the ids 1..52 |
| Deck.DeckAtMost52 | video_poker/card_deck.py:24 | a list that keeps the invariant never holds more than 52 ids |
| Deck.RemoveFirstAt | video_poker/card_deck.py:77 | removing an id at its first position leaves the ids before it and after it in their order |
| Deck.RemovePresent | video_poker/card_deck.py:74-77 | removing an id that is in the deck takes it out entirely, keeps the other ids in order, and keeps the invariant |
| Deck.InsertKeepsInvariant | video_poker/card_deck.py:87-91 | inserting an absent id in 1..52 at any position keeps the invariant and adds exactly that id |
| Deck.RemoveUndoesInsert | video_poker/card_deck.py:74-91 | replace_card followed by remove_card of the same card restores the deck exactly |
| Deck.InsertUndoesRemove | video_poker/card_deck.py:74-91 | remove_card followed by replace_card of the same card restores the deck's multiset of ids |
| Deck.ShuffleDownPermutes | video_poker/card_deck.py:53 | every stage of the Fisher–Yates loop keeps the length, the multiset of ids and the invariant |
| Deck.ShufflePermutes | video_poker/card_deck.py:48-53 | a shuffle changes only the order: length, multiset and invariant are unchanged |
| Deck.ResetHoldsEveryId | video_poker/card_deck.py:34-36 | after reset the deck holds exactly the ids 1..52, each once, in the shuffled order |
| Deck.PeekMembership | video_poker/card_deck.py:38-46 | peek reports a card exactly when its num is in 1..13 and its id is in the deck |
| Deck.PeekDistinct | video_poker/card_deck.py:38-46 | peek never reports a card twice |
| Deck.PeekOfEveryId | video_poker/card_deck.py:38-46 | a deck holding every id 1..52 shows exactly the 52 cards of the deck in peek |
| Deck.PeekAfterRemove | video_poker/card_deck.py:38-77 | after one card is removed from a deck holding every id, the invariant holds and peek shows exactly the other cards |
| Deck.FreshPeekIsEveryCard | video_poker/card_deck.py:29-46 | on a fresh deck, peek reports exactly the 52 cards |
| Deck.CardDeck.constructor | video_poker/card_deck.py:29-32 | a new deck is the full deck after one shuffle and keeps the invariant |
| Deck.CardDeck.Reset | video_poker/card_deck.py:34-36 | reset leaves the shuffled full deck: 52 ids, exactly 1..52, with the invariant |
| Deck.CardDeck.PeekDeck | video_poker/card_deck.py:38-46 | peek returns one card per stored id, in storage order, each the decoding of its id, and changes nothing |
| Deck.CardDeck.Shuffle | video_poker/card_deck.py:48-54 | the new list is the Fisher–Yates result for the given choices, with the same multiset, and it keeps the invariant |
| Deck.CardDeck.Draw | video_poker/card_deck.py:56-65 | on an empty deck: DeckEmpty and no change. Otherwise: the card of the chosen id is returned, exactly that id is removed, the others keep their order, and the invariant holds |
| Deck.CardDeck.RemoveCard | video_poker/card_deck.py:67-77 | an absent id gives CardNotInDeck and no change. Otherwise exactly that id is removed, in list order, and it is no longer in the deck |
| Deck.CardDeck.ReplaceCard | video_poker/card_deck.py:79-91 | a present id gives CardAlreadyInDeck and no change. Otherwise the id is inserted at the chosen position, the others keep their order, and the invariant holds |
| Deck.DrawnCardIsNew | video_poker/card_deck.py:56-65 | a drawn card is different from every card drawn before it, and after the draw none of those cards is in the deck |
| Deck.DrawAllCards | tests/test_card_deck.py:26-34 | from a fresh deck, 52 draws return 52 distinct cards, each with num in 1..13, and the 53rd draw raises DeckEmpty |
| Deck.RemoveCardTwice | tests/test_card_deck.py:36-54 | on a fresh deck, removing a card succeeds and peek then shows exactly the other 51 cards. Removing the same card again raises CardNotInDeck |
| FloatEncode.RoundHalfEven | video_poker/card_deck.py:111 | the result is an integer within one half of the input |
| FloatEncode.ToDouble | video_poker/card_deck.py:111 | each binary64 rounding step moves its value by at most 2^-47 in the range used |
| FloatEncode.EncodeAsWritten | video_poker/card_deck.py:109-112 | the float expression `int((suit.value + num / 13) * 13)`, rounded as binary64, is never above the intended id and at most one below it |
| FloatEncode.EncodeAsWrittenMisses | video_poker/card_deck.py:109-112 | the float encode maps DIAMOND 2 to 14 (DIAMOND 1's id) and SPADE 4 to 29 (SPADE 3's id), where the intended ids are 15 and 30 |

## Left out

- Logging is not modelled: `logging.basicConfig`, the logger and the message in `shuffle`. They have no effect on the deck.
- The debug `print` in the decode fallback is not modelled. Only the "no card" outcome is kept.
- The random source is not modelled. Its choices are arguments, and uniformity cannot be stated.
- The float decode expression of `_get_card_from_num` is not modelled. The model uses the exact floor division and remainder it is meant to compute.
- Deck.CardDeck.ReplaceCard: requires a card whose exact id falls in 1..52. Some cards with an out-of-range num whose exact id falls in 1..52, for example HEART 14 (id 14) and DIAMOND 0 (id 13), get the same id from the float expression and are handled as the source does; others do not (see the line on RemoveCard and ReplaceCard below). A card whose exact id falls outside 1..52, such as HEART 0 or CLUB 14, is left out: the source would insert that id when it is absent, which breaks the deck's invariant.
- Deck.CardDeck.PeekDeck: requires the invariant. For an id outside 1..52 the source would append `None`, but with the invariant in place the list never holds such an id.
- Deck.CardDeck.Draw: the chosen card is given by its position, which is how `random.choice` picks. The model does not state that every position is equally likely.
- Deck.CardDeck.RemoveCard and Deck.CardDeck.ReplaceCard: compute the id with the exact `Cards.Encode` rather than the float expression at line 111. So for DIAMOND 2 and SPADE 4 they act on the intended ids 15 and 30, not on 14 and 29 as the source does (see Findings). Cards with an out-of-range num can get a different id too: HEART 15 gives 14 in the source and 15 here, and DIAMOND -12 gives 0 in the source, an id the source would insert into the deck, while the model treats it as id 1.
- FloatEncode.EncodeAsWritten: covers only cards with num in 1..13. The rounding model covers values from 1/16 to 64, which is every value the float encode reaches for those cards.

## Findings

| source | as written | input that shows it | evidently intended | confidence | as-written member | corrected member |
|---|---|---|---|---|---|---|
| video_poker/card_deck.py:111-112 | `int((suit.value + num / 13) * 13)` in binary64 arithmetic, truncated by `int` | `CARD(DIAMOND, 2)` encodes to 14 and `CARD(SPADE, 4)` to 29, because the rounded product falls just below 15 and 30 | `suit.value * 13 + num`, giving 15 and 30 | high; derived by proof, not executed | FloatEncode.EncodeAsWrittenMisses | Cards.DecodeEncode |

The consequence is that `remove_card(CARD(DIAMOND, 2))` on a full deck removes DIAMOND 1 instead, and `replace_card` of a drawn DIAMOND 2 can raise as though the card were present. The deck model uses the exact `Cards.Encode`.
