/**
 * `Hand<TRank>` (Hand.cs): an immutable list of cards, stored sorted by
 * rank with the highest first. The sort is `OrderByDescending` with the
 * cards' own rank-only comparison, so it is stable and ignores suits.
 */
module SortedHands {
  import opened Linq
  import opened Cards
  import opened Ranks
  import opened Suits

  datatype Hand<R> = Hand(cards: seq<Card<R>>)

  /** The sort key of a card: its rank's underlying value. */
  function RankKey<R>(ord: R -> int): Card<R> -> int
  {
    (c: Card<R>) => ord(c.rank)
  }

  /**
   * The constructor: the stored cards are the input, sorted by
   * non-increasing rank; cards of equal rank keep their input order
   * (NewHandStable).
   */
  function NewHand<R>(ord: R -> int, input: seq<Card<R>>): (h: Hand<R>)
    ensures |h.cards| == |input|
    ensures multiset(h.cards) == multiset(input)
    ensures forall i, j :: 0 <= i < j < |h.cards| ==> ord(h.cards[i].rank) >= ord(h.cards[j].rank)
  {
    var sorted := SortDescending(input, RankKey(ord));
    assert SortedDescending(sorted, RankKey(ord));
    Hand(sorted)
  }

  /** `Count`: the number of cards. */
  function Count<R>(h: Hand<R>): (n: nat)
  {
    |h.cards|
  }

  /** A hand has as many cards as it was built from, and the same ones. */
  lemma NewHandCount<R>(ord: R -> int, input: seq<Card<R>>)
    ensures Count(NewHand(ord, input)) == |input|
    ensures forall c :: c in NewHand(ord, input).cards <==> c in input
  {
    var h := NewHand(ord, input);
    forall c ensures c in h.cards <==> c in input {
      assert c in h.cards <==> c in multiset(h.cards);
      assert c in input <==> c in multiset(input);
    }
  }

  /** Cards of equal rank keep their input order. */
  lemma NewHandStable<R>(ord: R -> int, input: seq<Card<R>>, k: int)
    ensures WithKey(NewHand(ord, input).cards, RankKey(ord), k) == WithKey(input, RankKey(ord), k)
  {
    SortDescendingStable(input, RankKey(ord), k);
  }

  /** The stable sort makes input order visible: the same two Aces in either order give different hands. */
  lemma InputOrderMatters()
    ensures NewHand(Ranks.Ordinal, [Card(Ace, Spades), Card(Ace, Hearts)]).cards == [Card(Ace, Spades), Card(Ace, Hearts)]
    ensures NewHand(Ranks.Ordinal, [Card(Ace, Hearts), Card(Ace, Spades)]).cards == [Card(Ace, Hearts), Card(Ace, Spades)]
  {
    var key := RankKey(Ranks.Ordinal);
    var one := [Card(Ace, Hearts)];
    var two := [Card(Ace, Spades)];
    assert [Card(Ace, Spades), Card(Ace, Hearts)][1..] == one;
    assert [Card(Ace, Hearts), Card(Ace, Spades)][1..] == two;
    assert SortDescending(one, key) == one by {
      assert one[1..] == [];
    }
    assert SortDescending(two, key) == two by {
      assert two[1..] == [];
    }
  }
}
