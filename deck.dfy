/**
 * `Deck` (Deck.cs): a shuffled queue of cards that is dealt from the front.
 * The random numbers the shuffle draws are a parameter: `random(i)` is the
 * value of the i-th call of `Random.Next()`.
 */
module Decks {
  import opened Wrappers
  import opened Linq
  import opened Ranks
  import opened Suits
  import opened Cards

  datatype DeckError = JokersOutOfRange | AmountOutOfRange | NoCardsLeft

  const JokerCard: Card<Rank> := Card(Joker, Suits.None)

  /** `Enumerable.Repeat(x, n)` */
  function Repeat<T>(x: T, n: nat): (r: seq<T>)
    ensures |r| == n && forall i :: 0 <= i < n ==> r[i] == x
  {
    seq(n, _ => x)
  }

  /** `Repeat(joker, jokers).Union(createCards())`, before the shuffle. */
  function DeckCards(jokers: nat): seq<Card<Rank>>
  {
    Distinct(Repeat(JokerCard, jokers) + StandardCards())
  }

  /**
   * `Union` keeps one copy of equal cards, so the unshuffled deck is one
   * joker (when any are asked for) followed by the 52 standard cards.
   */
  lemma DeckCardsContents(jokers: nat)
    ensures DeckCards(jokers) == (if jokers > 0 then [JokerCard] else []) + StandardCards()
    ensures |DeckCards(jokers)| == if jokers > 0 then 53 else 52
    ensures IsDistinct(DeckCards(jokers))
  {
    var js := Repeat(JokerCard, jokers);
    DistinctExceptConcat(js, StandardCards(), {});
    RepeatDistinct(JokerCard, jokers, {});
    StandardCardsDistinct();
    StandardCardsMembership(JokerCard);
    var seen := {} + set x | x in js;
    assert forall x :: x in StandardCards() ==> x !in seen by {
      forall x | x in StandardCards() ensures x !in seen {
        StandardCardsMembership(x);
      }
    }
    DistinctExceptOfDistinct(StandardCards(), seen);
  }

  /** Dropping duplicates from copies of one value leaves one copy, or none. */
  lemma RepeatDistinct<T(!new)>(x: T, n: nat, seen: set<T>)
    requires x !in seen
    ensures DistinctExcept(Repeat(x, n), seen) == if n > 0 then [x] else []
  {
    if n > 0 {
      assert Repeat(x, n)[1..] == Repeat(x, n - 1);
      RepeatSeen(x, n - 1, seen + {x});
    }
  }

  lemma {:induction false} RepeatSeen<T(!new)>(x: T, n: nat, seen: set<T>)
    requires x in seen
    ensures DistinctExcept(Repeat(x, n), seen) == []
  {
    if n > 0 {
      assert Repeat(x, n)[1..] == Repeat(x, n - 1);
      RepeatSeen(x, n - 1, seen);
    }
  }

  /** A card with its random sort key. */
  datatype Keyed = Keyed(card: Card<Rank>, key: int)

  function CardOf(k: Keyed): Card<Rank> { k.card }

  /** `OrderBy` sorts ascending: a descending sort on the negated key. */
  function Descending(k: Keyed): int { -k.key }

  /** `cards.OrderBy(_ => random.Next())`: the i-th card draws the i-th number. */
  function Shuffle(cards: seq<Card<Rank>>, random: nat -> int): (r: seq<Card<Rank>>)
    ensures |r| == |cards|
    ensures multiset(r) == multiset(cards)
  {
    var keyed := seq(|cards|, i requires 0 <= i < |cards| => Keyed(cards[i], random(i)));
    var sorted := SortDescending(keyed, Descending);
    assert Select(keyed, CardOf) == cards;
    SelectPermutation(sorted, keyed, CardOf);
    Select(sorted, CardOf)
  }

  /** `OrderBy` is stable: cards that draw the same number keep their order. */
  lemma ShuffleOrdered(cards: seq<Card<Rank>>, random: nat -> int)
    ensures var keyed := seq(|cards|, i requires 0 <= i < |cards| => Keyed(cards[i], random(i)));
      var sorted := SortDescending(keyed, Descending);
      && Shuffle(cards, random) == Select(sorted, CardOf)
      && (forall i, j :: 0 <= i < j < |sorted| ==> sorted[i].key <= sorted[j].key)
      && (forall k :: WithKey(sorted, Descending, k) == WithKey(keyed, Descending, k))
  {
    var keyed := seq(|cards|, i requires 0 <= i < |cards| => Keyed(cards[i], random(i)));
    forall k ensures WithKey(SortDescending(keyed, Descending), Descending, k) == WithKey(keyed, Descending, k) {
      SortDescendingStable(keyed, Descending, k);
    }
  }

  /** The cards a deck may hold: distinct, each a standard card or the joker. */
  ghost predicate DeckShaped(cards: seq<Card<Rank>>)
  {
    IsDistinct(cards) && forall c :: c in cards ==> c in StandardCards() || c == JokerCard
  }

  class Deck {
    /** The queue, front first. */
    var cards: seq<Card<Rank>>

    ghost predicate Valid()
      reads this
    {
      DeckShaped(cards)
    }

    /** `new Deck(jokers)` once the joker count has been checked. */
    constructor(jokers: nat, random: nat -> int)
      ensures cards == Shuffle(DeckCards(jokers), random)
      ensures multiset(cards) == multiset((if jokers > 0 then [JokerCard] else []) + StandardCards())
      ensures Valid()
    {
      cards := Shuffle(DeckCards(jokers), random);
      new;
      DeckCardsContents(jokers);
      PermutationDistinct(DeckCards(jokers), cards);
      forall c | c in cards ensures c in StandardCards() || c == JokerCard {
        assert c in multiset(cards);
      }
    }

    /** `new Deck(jokers)`: a negative joker count is rejected. */
    static method Create(jokers: int, random: nat -> int) returns (r: Result<Deck, DeckError>)
      ensures jokers < 0 <==> r.Failure?
      ensures r.Failure? ==> r.error == JokersOutOfRange
      ensures r.Success? ==> fresh(r.value) && r.value.Valid() && r.value.cards == Shuffle(DeckCards(jokers), random)
    {
      if jokers < 0 {
        return Failure(JokersOutOfRange);
      }
      var d := new Deck(jokers, random);
      return Success(d);
    }

    function Count(): (n: nat)
      reads this
      ensures n == |cards|
    {
      |cards|
    }

    predicate IsEmpty()
      reads this
    {
      Count() == 0
    }

    predicate CanDraw()
      reads this
    {
      Count() > 0
    }

    /** `Draw()`: the front card leaves the queue; an empty deck is an error and stays as it is. */
    method Draw() returns (r: Result<Card<Rank>, DeckError>)
      modifies this
      ensures old(cards) == [] ==> r == Failure(NoCardsLeft) && cards == old(cards)
      ensures old(cards) != [] ==> r == Success(old(cards)[0]) && cards == old(cards)[1..]
      ensures old(Valid()) ==> Valid()
    {
      if cards == [] {
        return Failure(NoCardsLeft);
      }
      r := Success(cards[0]);
      cards := cards[1..];
    }

    /**
     * `Draw(amount)`: `amount` cards in queue order. A non-positive amount is
     * rejected before anything is drawn; asking for more cards than are left
     * empties the deck and then fails.
     */
    method DrawMany(amount: int) returns (r: Result<seq<Card<Rank>>, DeckError>)
      modifies this
      ensures amount <= 0 ==> r == Failure(AmountOutOfRange) && cards == old(cards)
      ensures 0 < amount <= |old(cards)| ==> r == Success(old(cards)[..amount]) && cards == old(cards)[amount..]
      ensures amount > |old(cards)| ==> r == Failure(NoCardsLeft) && cards == []
      ensures old(Valid()) ==> Valid()
    {
      if amount <= 0 {
        return Failure(AmountOutOfRange);
      }
      ghost var start := cards;
      var drawn: seq<Card<Rank>> := [];
      var i := 0;
      while i < amount
        invariant 0 <= i <= amount && i <= |start|
        invariant drawn == start[..i] && cards == start[i..]
        invariant DeckShaped(start) ==> DeckShaped(cards)
      {
        var next := Draw();
        if next.Failure? {
          return Failure(next.error);
        }
        assert start[..i + 1] == start[..i] + [start[i]];
        drawn := drawn + [next.value];
        i := i + 1;
      }
      return Success(drawn);
    }

    /** `Burn()`: draws one card and throws it away. */
    method Burn() returns (o: Outcome<DeckError>)
      modifies this
      ensures old(cards) == [] ==> o == Fail(NoCardsLeft) && cards == old(cards)
      ensures old(cards) != [] ==> o == Pass && cards == old(cards)[1..]
      ensures old(Valid()) ==> Valid()
    {
      var card := Draw();
      if card.Failure? {
        return Fail(card.error);
      }
      return Pass;
    }
  }

  /** Emptiness and the ability to draw are complementary and tied to the count. */
  lemma DeckPredicates(d: Deck)
    ensures d.IsEmpty() <==> |d.cards| == 0
    ensures d.CanDraw() <==> !d.IsEmpty()
  {
  }
}
