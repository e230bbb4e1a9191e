/**
 * The CardDeck class of video_poker/card_deck.py: a list of card ids still in
 * the deck, refilled by reset, reordered by shuffle, shrunk by draw and
 * remove_card, grown by replace_card, and read back as cards by peek_deck.
 * Python's random source is replaced by choices the caller passes in.
 */
module Deck {
  import opened Wrappers
  import opened Cards

  /** The three RuntimeErrors the deck raises, told apart by their message. */
  datatype DeckError = DeckEmpty | CardNotInDeck | CardAlreadyInDeck

  // ---------------------------------------------------------------------------
  // Deck contents as values
  // ---------------------------------------------------------------------------

  /** `list(range(1, NUM_CARDS + 1))` */
  function FullDeck(): (s: seq<int>)
    ensures |s| == NumCards
    ensures forall i :: 0 <= i < |s| ==> s[i] == i + 1
  {
    seq(NumCards, i => i + 1)
  }

  /** Every id lies in 1..52 and no id occurs twice. */
  predicate DeckInvariant(s: seq<int>) {
    (forall i :: 0 <= i < |s| ==> 1 <= s[i] <= NumCards) &&
    (forall i, j :: 0 <= i < j < |s| ==> s[i] != s[j])
  }

  /** `list.remove(x)`: drop the first occurrence of x; the callers make sure it is there. */
  function RemoveFirst(s: seq<int>, x: int): (r: seq<int>)
    ensures x in s ==> |r| == |s| - 1
    ensures x !in s ==> r == s
  {
    if s == [] then []
    else if s[0] == x then s[1..]
    else [s[0]] + RemoveFirst(s[1..], x)
  }

  /** `list.remove` takes exactly one occurrence of x out of the multiset of ids. */
  lemma {:induction false} RemoveFirstCounts(s: seq<int>, x: int)
    ensures multiset(RemoveFirst(s, x)) == multiset(s) - multiset{x}
  {
    if s != [] {
      assert s == [s[0]] + s[1..];
      if s[0] != x {
        RemoveFirstCounts(s[1..], x);
      }
    }
  }

  /** `list.insert(pos, x)` for a position in 0..len. */
  function InsertAt(s: seq<int>, pos: nat, x: int): (r: seq<int>)
    requires pos <= |s|
    ensures |r| == |s| + 1 && r[pos] == x
    ensures forall i :: 0 <= i < pos ==> r[i] == s[i]
    ensures forall i :: pos <= i < |s| ==> r[i + 1] == s[i]
  {
    s[..pos] + [x] + s[pos..]
  }

  /** One swap of the Fisher-Yates loop that `random.shuffle` runs. */
  function Swap(s: seq<int>, i: nat, j: nat): (r: seq<int>)
    requires i < |s| && j < |s|
    ensures |r| == |s| && r[i] == s[j] && r[j] == s[i]
    ensures forall k :: 0 <= k < |s| && k != i && k != j ==> r[k] == s[k]
  {
    s[i := s[j]][j := s[i]]
  }

  /**
   * The random choices of `random.shuffle` on a list of length n: for each
   * position i, from n - 1 down to 1, the index j in 0..i it swaps with.
   */
  predicate ValidSwaps(swaps: seq<nat>, n: nat) {
    |swaps| == n && forall i :: 0 <= i < n ==> swaps[i] <= i
  }

  /** The Fisher-Yates steps for positions k - 1 down to 1. */
  function ShuffleDown(s: seq<int>, swaps: seq<nat>, k: nat): (r: seq<int>)
    requires ValidSwaps(swaps, |s|) && k <= |s|
    ensures |r| == |s|
    ensures forall p :: k <= p < |s| ==> r[p] == s[p]
    decreases k
  {
    if k <= 1 then s
    else ShuffleDown(Swap(s, k - 1, swaps[k - 1]), swaps, k - 1)
  }

  /** `random.shuffle(s)` with its random choices given. */
  function Shuffled(s: seq<int>, swaps: seq<nat>): (r: seq<int>)
    requires ValidSwaps(swaps, |s|)
    ensures |r| == |s|
    ensures multiset(r) == multiset(s)
  {
    ShuffleDownPermutes(s, swaps, |s|);
    ShuffleDown(s, swaps, |s|)
  }

  /** The cards `peek_deck` reports for the ids s, in storage order. */
  function DecodeAll(s: seq<int>): (cards: seq<Card>)
    requires forall i :: 0 <= i < |s| ==> 1 <= s[i] <= NumCards
    ensures |cards| == |s|
    ensures forall i :: 0 <= i < |s| ==> Decode(s[i]) == Some(cards[i]) && ValidCard(cards[i])
  {
    seq(|s|, i requires 0 <= i < |s| && 1 <= s[i] <= NumCards => Decode(s[i]).value)
  }

  // ---------------------------------------------------------------------------
  // Lemmas about deck contents
  // ---------------------------------------------------------------------------

  /** The fresh deck holds each id 1..52 exactly once. */
  lemma FullDeckHoldsEveryId()
    ensures DeckInvariant(FullDeck())
    ensures forall x :: x in FullDeck() <==> 1 <= x <= NumCards
  {
    var s := FullDeck();
    forall x | 1 <= x <= NumCards
      ensures x in s
    {
      assert s[x - 1] == x;
    }
  }

  /** The ids of a distinct sequence, as a set. */
  function Elements(s: seq<int>): set<int> {
    set x | x in s
  }

  lemma {:induction false} DistinctElementsCount(s: seq<int>)
    requires forall i, j :: 0 <= i < j < |s| ==> s[i] != s[j]
    ensures |Elements(s)| == |s|
  {
    if s != [] {
      DistinctElementsCount(s[1..]);
      assert Elements(s) == Elements(s[1..]) + {s[0]};
      assert s[0] !in s[1..];
    }
  }

  /** The set {1, .., n}. */
  function UpTo(n: nat): (r: set<int>)
    ensures forall x :: x in r <==> 1 <= x <= n
    ensures |r| == n
  {
    if n == 0 then {} else UpTo(n - 1) + {n}
  }

  /** A deck that keeps its invariant never holds more than 52 cards. */
  lemma DeckAtMost52(s: seq<int>)
    requires DeckInvariant(s)
    ensures |s| <= NumCards
  {
    DistinctElementsCount(s);
    assert Elements(s) <= UpTo(NumCards);
    assert UpTo(NumCards) == Elements(s) + (UpTo(NumCards) - Elements(s));
  }

  /** `list.remove` passes over a prefix that does not hold x. */
  lemma {:induction false} RemoveFirstSkips(a: seq<int>, b: seq<int>, x: int)
    requires x !in a
    ensures RemoveFirst(a + b, x) == a + RemoveFirst(b, x)
  {
    if a == [] {
      assert a + b == b;
    } else {
      assert (a + b)[0] == a[0] != x;
      assert (a + b)[1..] == a[1..] + b;
      RemoveFirstSkips(a[1..], b, x);
      assert a == [a[0]] + a[1..];
    }
  }

  /** Removing the id at its only position keeps the others in their order. */
  lemma RemoveFirstAt(s: seq<int>, k: nat)
    requires k < |s|
    requires s[k] !in s[..k]
    ensures RemoveFirst(s, s[k]) == s[..k] + s[k + 1..]
  {
    var front, rest := s[..k], s[k..];
    assert s == front + rest;
    RemoveFirstSkips(front, rest, s[k]);
    assert rest[0] == s[k] && rest[1..] == s[k + 1..];
  }

  /** In a deck without duplicates, the position of an id is unique. */
  lemma NotBeforeItself(s: seq<int>, k: nat)
    requires DeckInvariant(s) && k < |s|
    ensures s[k] !in s[..k]
  {
    forall i | 0 <= i < k
      ensures s[..k][i] != s[k]
    {
    }
  }

  /** Dropping one position keeps the deck's invariant. */
  lemma DropKeepsInvariant(s: seq<int>, k: nat)
    requires DeckInvariant(s) && k < |s|
    ensures DeckInvariant(s[..k] + s[k + 1..])
    ensures s[k] !in s[..k] + s[k + 1..]
    ensures forall x :: x in s[..k] + s[k + 1..] ==> x in s
  {
    var r := s[..k] + s[k + 1..];
    forall i | 0 <= i < |r|
      ensures r[i] == s[if i < k then i else i + 1]
    {
    }
  }

  /** Removing a present id removes it completely, keeps the other ids in order, and keeps the invariant. */
  lemma RemovePresent(s: seq<int>, x: int)
    requires DeckInvariant(s) && x in s
    ensures exists k :: 0 <= k < |s| && s[k] == x && RemoveFirst(s, x) == s[..k] + s[k + 1..]
    ensures x !in RemoveFirst(s, x)
    ensures DeckInvariant(RemoveFirst(s, x))
  {
    var k :| 0 <= k < |s| && s[k] == x;
    NotBeforeItself(s, k);
    RemoveFirstAt(s, k);
    DropKeepsInvariant(s, k);
  }

  /** Inserting an absent id of 1..52 keeps the invariant and adds exactly that id. */
  lemma InsertKeepsInvariant(s: seq<int>, pos: nat, x: int)
    requires DeckInvariant(s) && pos <= |s|
    requires 1 <= x <= NumCards && x !in s
    ensures DeckInvariant(InsertAt(s, pos, x))
    ensures multiset(InsertAt(s, pos, x)) == multiset(s) + multiset{x}
  {
    var r := InsertAt(s, pos, x);
    assert s == s[..pos] + s[pos..];
    forall i | 0 <= i < |r|
      ensures r[i] == if i < pos then s[i] else if i == pos then x else s[i - 1]
    {
    }
  }

  /** Removing an inserted card restores the deck exactly (replace_card then remove_card). */
  lemma RemoveUndoesInsert(s: seq<int>, pos: nat, x: int)
    requires pos <= |s| && x !in s
    ensures RemoveFirst(InsertAt(s, pos, x), x) == s
  {
    var r := InsertAt(s, pos, x);
    assert r[pos] == x;
    assert r[..pos] == s[..pos];
    assert r[pos + 1..] == s[pos..];
    RemoveFirstAt(r, pos);
    assert s == s[..pos] + s[pos..];
  }

  /** Inserting a removed card restores the deck's membership (remove_card then replace_card). */
  lemma InsertUndoesRemove(s: seq<int>, pos: nat, x: int)
    requires x in s && pos <= |RemoveFirst(s, x)|
    ensures multiset(InsertAt(RemoveFirst(s, x), pos, x)) == multiset(s)
  {
    var r := RemoveFirst(s, x);
    RemoveFirstCounts(s, x);
    assert r == r[..pos] + r[pos..];
    calc {
      multiset(InsertAt(r, pos, x));
      multiset(r[..pos]) + multiset{x} + multiset(r[pos..]);
      multiset(r) + multiset{x};
      multiset(s) - multiset{x} + multiset{x};
    }
    assert x in multiset(s);
  }

  lemma SwapPermutes(s: seq<int>, i: nat, j: nat)
    requires i < |s| && j < |s|
    ensures |Swap(s, i, j)| == |s|
    ensures multiset(Swap(s, i, j)) == multiset(s)
    ensures DeckInvariant(s) ==> DeckInvariant(Swap(s, i, j))
  {
    var r := Swap(s, i, j);
    forall k | 0 <= k < |s|
      ensures r[k] == s[if k == i then j else if k == j then i else k]
    {
    }
  }

  /** `random.shuffle` only reorders: the ids, their number and the invariant are unchanged. */
  lemma {:induction false} ShuffleDownPermutes(s: seq<int>, swaps: seq<nat>, k: nat)
    requires ValidSwaps(swaps, |s|) && k <= |s|
    ensures |ShuffleDown(s, swaps, k)| == |s|
    ensures multiset(ShuffleDown(s, swaps, k)) == multiset(s)
    ensures DeckInvariant(s) ==> DeckInvariant(ShuffleDown(s, swaps, k))
    decreases k
  {
    if k > 1 {
      SwapPermutes(s, k - 1, swaps[k - 1]);
      ShuffleDownPermutes(Swap(s, k - 1, swaps[k - 1]), swaps, k - 1);
    }
  }

  lemma ShufflePermutes(s: seq<int>, swaps: seq<nat>)
    requires ValidSwaps(swaps, |s|)
    ensures |Shuffled(s, swaps)| == |s|
    ensures multiset(Shuffled(s, swaps)) == multiset(s)
    ensures DeckInvariant(s) ==> DeckInvariant(Shuffled(s, swaps))
  {
    ShuffleDownPermutes(s, swaps, |s|);
  }

  /** After reset_deck the deck holds exactly the ids 1..52, each once, in the shuffled order. */
  lemma ResetHoldsEveryId(swaps: seq<nat>)
    requires ValidSwaps(swaps, NumCards)
    ensures DeckInvariant(Shuffled(FullDeck(), swaps))
    ensures |Shuffled(FullDeck(), swaps)| == NumCards
    ensures forall x :: x in Shuffled(FullDeck(), swaps) <==> 1 <= x <= NumCards
  {
    FullDeckHoldsEveryId();
    ShufflePermutes(FullDeck(), swaps);
    var r := Shuffled(FullDeck(), swaps);
    forall x
      ensures x in r <==> x in FullDeck()
    {
      assert x in r <==> x in multiset(r);
    }
  }

  /** peek_deck reports a card exactly when it is a deck card whose id is in the deck. */
  lemma PeekMembership(s: seq<int>, c: Card)
    requires DeckInvariant(s)
    ensures c in DecodeAll(s) <==> ValidCard(c) && Encode(c) in s
  {
    var cards := DecodeAll(s);
    if c in cards {
      var i :| 0 <= i < |cards| && cards[i] == c;
      EncodeDecode(s[i]);
    }
    if ValidCard(c) && Encode(c) in s {
      var i :| 0 <= i < |s| && s[i] == Encode(c);
      DecodeEncode(c);
      assert cards[i] == c;
    }
  }

  /** peek_deck reports no card twice. */
  lemma PeekDistinct(s: seq<int>)
    requires DeckInvariant(s)
    ensures forall i, j :: 0 <= i < j < |s| ==> DecodeAll(s)[i] != DecodeAll(s)[j]
  {
    forall i, j | 0 <= i < j < |s|
      ensures DecodeAll(s)[i] != DecodeAll(s)[j]
    {
      if DecodeAll(s)[i] == DecodeAll(s)[j] {
        DecodeInjective(s[i], s[j]);
      }
    }
  }

  /** A deck holding every id 1..52 shows every card of the deck in peek_deck. */
  lemma PeekOfEveryId(s: seq<int>, c: Card)
    requires DeckInvariant(s) && forall x :: x in s <==> 1 <= x <= NumCards
    ensures c in DecodeAll(s) <==> ValidCard(c)
  {
    PeekMembership(s, c);
  }

  /** On a fresh deck, peek_deck reports all 52 cards, each once. */
  lemma FreshPeekIsEveryCard(swaps: seq<nat>, c: Card)
    requires ValidSwaps(swaps, NumCards)
    ensures DeckInvariant(Shuffled(FullDeck(), swaps))
    ensures c in DecodeAll(Shuffled(FullDeck(), swaps)) <==> ValidCard(c)
  {
    ResetHoldsEveryId(swaps);
    PeekOfEveryId(Shuffled(FullDeck(), swaps), c);
  }

  // ---------------------------------------------------------------------------
  // The deck object
  // ---------------------------------------------------------------------------

  class CardDeck {
    /** `_deck`: the ids still in the deck, in storage order. */
    var deck: seq<int>

    ghost predicate Valid()
      reads this
    {
      DeckInvariant(deck)
    }

    /** `__init__`: a full deck, shuffled with the given choices. */
    constructor (swaps: seq<nat>)
      requires ValidSwaps(swaps, NumCards)
      ensures Valid()
      ensures deck == Shuffled(FullDeck(), swaps)
      ensures |deck| == NumCards
      ensures forall x :: x in deck <==> 1 <= x <= NumCards
    {
      deck := [];
      new;
      Reset(swaps);
    }

    /** `reset_deck`: refill with ids 1..52 and shuffle. */
    method Reset(swaps: seq<nat>)
      requires ValidSwaps(swaps, NumCards)
      modifies this
      ensures Valid()
      ensures deck == Shuffled(FullDeck(), swaps)
      ensures |deck| == NumCards
      ensures forall x :: x in deck <==> 1 <= x <= NumCards
    {
      deck := FullDeck();
      FullDeckHoldsEveryId();
      Shuffle(swaps);
      ResetHoldsEveryId(swaps);
    }

    /** `peek_deck`: the deck's cards, decoded, in storage order; the deck is not changed. */
    method PeekDeck() returns (cards: seq<Card>)
      requires Valid()
      ensures |cards| == |deck|
      ensures forall i :: 0 <= i < |deck| ==> Decode(deck[i]) == Some(cards[i])
      ensures cards == DecodeAll(deck)
    {
      cards := [];
      for k := 0 to |deck|
        invariant |cards| == k
        invariant forall i :: 0 <= i < k ==> Decode(deck[i]) == Some(cards[i])
      {
        cards := cards + [Decode(deck[k]).value];
      }
    }

    /** `shuffle`: the Fisher-Yates loop of `random.shuffle` with the given choices. */
    method Shuffle(swaps: seq<nat>)
      requires Valid()
      requires ValidSwaps(swaps, |deck|)
      modifies this
      ensures Valid()
      ensures deck == Shuffled(old(deck), swaps)
      ensures multiset(deck) == multiset(old(deck))
    {
      ShufflePermutes(deck, swaps);
      var k: nat := |deck|;
      while k > 1
        invariant k <= |deck| == |old(deck)|
        invariant ValidSwaps(swaps, |deck|)
        invariant ShuffleDown(deck, swaps, k) == Shuffled(old(deck), swaps)
      {
        var j := swaps[k - 1];
        deck := deck[k - 1 := deck[j]][j := deck[k - 1]];
        k := k - 1;
      }
    }

    /**
     * `draw`: raise on an empty deck; otherwise remove the id at the chosen
     * position (the choice of `random.choice`) and return its card.
     */
    method Draw(pick: nat) returns (r: Result<Card, DeckError>)
      requires Valid()
      requires |deck| > 0 ==> pick < |deck|
      modifies this
      ensures Valid()
      ensures old(|deck|) == 0 ==> r == Failure(DeckEmpty) && deck == old(deck)
      ensures old(|deck|) > 0 ==>
        && r.Success?
        && Decode(old(deck)[pick]) == Some(r.value)
        && deck == old(deck)[..pick] + old(deck)[pick + 1..]
        && deck == RemoveFirst(old(deck), old(deck)[pick])
        && multiset(deck) == multiset(old(deck)) - multiset{old(deck)[pick]}
        && old(deck)[pick] !in deck
    {
      if |deck| < 1 {
        return Failure(DeckEmpty);
      }
      var card := deck[pick];
      NotBeforeItself(deck, pick);
      RemoveFirstAt(deck, pick);
      DropKeepsInvariant(deck, pick);
      RemoveFirstCounts(deck, card);
      deck := RemoveFirst(deck, card);
      r := Success(Decode(card).value);
    }

    /** `remove_card`: raise if the card's id is absent; otherwise remove exactly that id. */
    method RemoveCard(card: Card) returns (r: Outcome<DeckError>)
      requires Valid()
      modifies this
      ensures Valid()
      ensures Encode(card) !in old(deck) ==> r == Fail(CardNotInDeck) && deck == old(deck)
      ensures Encode(card) in old(deck) ==>
        && r == Pass
        && deck == RemoveFirst(old(deck), Encode(card))
        && multiset(deck) == multiset(old(deck)) - multiset{Encode(card)}
        && Encode(card) !in deck
    {
      var id := Encode(card);
      if id !in deck {
        return Fail(CardNotInDeck);
      }
      RemovePresent(deck, id);
      RemoveFirstCounts(deck, id);
      deck := RemoveFirst(deck, id);
      r := Pass;
    }

    /**
     * `replace_card`: raise if the card's id is present; otherwise insert it
     * at the chosen position in 0..len (the choice of `random.randint`).
     */
    method ReplaceCard(card: Card, pos: nat) returns (r: Outcome<DeckError>)
      requires Valid()
      requires 1 <= Encode(card) <= NumCards
      requires pos <= |deck|
      modifies this
      ensures Valid()
      ensures Encode(card) in old(deck) ==> r == Fail(CardAlreadyInDeck) && deck == old(deck)
      ensures Encode(card) !in old(deck) ==>
        && r == Pass
        && deck == old(deck)[..pos] + [Encode(card)] + old(deck)[pos..]
        && multiset(deck) == multiset(old(deck)) + multiset{Encode(card)}
    {
      var id := Encode(card);
      if id in deck {
        return Fail(CardAlreadyInDeck);
      }
      InsertKeepsInvariant(deck, pos, id);
      deck := InsertAt(deck, pos, id);
      r := Pass;
    }
  }

  // ---------------------------------------------------------------------------
  // Callers' scenarios, as in tests/test_card_deck.py
  // ---------------------------------------------------------------------------

  /** A drawn card differs from every card drawn before it, and leaves the deck. */
  lemma DrawnCardIsNew(before: seq<int>, p: nat, cards: seq<Card>, c: Card)
    requires DeckInvariant(before) && p < |before|
    requires Decode(before[p]) == Some(c)
    requires forall i :: 0 <= i < |cards| ==> ValidCard(cards[i]) && Encode(cards[i]) !in before
    requires forall i, j :: 0 <= i < j < |cards| ==> cards[i] != cards[j]
    ensures forall i :: 0 <= i < |cards| + 1 ==>
      ValidCard((cards + [c])[i]) && Encode((cards + [c])[i]) !in before[..p] + before[p + 1..]
    ensures forall i, j :: 0 <= i < j < |cards| + 1 ==> (cards + [c])[i] != (cards + [c])[j]
  {
    EncodeDecode(before[p]);
    DropKeepsInvariant(before, p);
  }

  /** From a fresh deck, 52 draws succeed with 52 distinct cards and the 53rd raises. */
  method DrawAllCards(swaps: seq<nat>, picks: seq<nat>) returns (cards: seq<Card>, last: Result<Card, DeckError>)
    requires ValidSwaps(swaps, NumCards)
    requires |picks| == NumCards && forall i :: 0 <= i < NumCards ==> picks[i] < NumCards - i
    ensures |cards| == NumCards
    ensures forall i :: 0 <= i < |cards| ==> ValidCard(cards[i])
    ensures forall i, j :: 0 <= i < j < |cards| ==> cards[i] != cards[j]
    ensures last == Failure(DeckEmpty)
  {
    var d := new CardDeck(swaps);
    cards := [];
    for n := 0 to NumCards
      invariant d.Valid() && |d.deck| == NumCards - n && |cards| == n
      invariant forall i :: 0 <= i < n ==> ValidCard(cards[i]) && Encode(cards[i]) !in d.deck
      invariant forall i, j :: 0 <= i < j < n ==> cards[i] != cards[j]
    {
      ghost var before := d.deck;
      var r := d.Draw(picks[n]);
      DrawnCardIsNew(before, picks[n], cards, r.value);
      cards := cards + [r.value];
    }
    last := d.Draw(0);
  }

  /** After one card is removed from a deck holding every id, peek shows exactly the other cards. */
  lemma PeekAfterRemove(full: seq<int>, card: Card, c: Card)
    requires DeckInvariant(full) && forall x :: x in full <==> 1 <= x <= NumCards
    requires ValidCard(card)
    ensures DeckInvariant(RemoveFirst(full, Encode(card)))
    ensures c in DecodeAll(RemoveFirst(full, Encode(card))) <==> ValidCard(c) && c != card
  {
    var after := RemoveFirst(full, Encode(card));
    RemovePresent(full, Encode(card));
    RemoveFirstCounts(full, Encode(card));
    PeekMembership(after, c);
    if ValidCard(c) {
      DecodeEncode(c);
      DecodeEncode(card);
      assert Encode(c) in after <==> Encode(c) in multiset(after);
      assert Encode(c) in full <==> Encode(c) in multiset(full);
    }
  }

  /**
   * A card removed from a fresh deck no longer shows in peek_deck, the other
   * 51 do, and removing it again raises.
   */
  method RemoveCardTwice(swaps: seq<nat>, card: Card) returns (first: Outcome<DeckError>, second: Outcome<DeckError>, peeked: seq<Card>)
    requires ValidSwaps(swaps, NumCards)
    requires ValidCard(card)
    ensures first == Pass && second == Fail(CardNotInDeck)
    ensures |peeked| == NumCards - 1
    ensures forall c :: c in peeked <==> ValidCard(c) && c != card
  {
    var d := new CardDeck(swaps);
    ghost var full := d.deck;
    first := d.RemoveCard(card);
    peeked := d.PeekDeck();
    forall c
      ensures c in peeked <==> ValidCard(c) && c != card
    {
      PeekAfterRemove(full, card, c);
    }
    second := d.RemoveCard(card);
  }
}
