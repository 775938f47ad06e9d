/**
 * `Hand` (Hand.cs): a hand of `Card<Rank>` whose strength is the best
 * five-card evaluation over every way of reading its wildcards. A Joker
 * stands for any rank from low Ace (1) to Ace (14), an Ace for 1 or 14,
 * and a card without a suit for any of the four suits.
 */
module Hands {
  import opened Wrappers
  import opened Linq
  import opened Combinatorics
  import opened Ranks
  import opened Suits
  import opened Cards
  import opened HandRanks
  import opened SortedHands
  import opened HandStrengths

  /** `new Hand(cards)`: the cards sorted by rank, highest first. */
  function NewPlayerHand(input: seq<Card<Rank>>): (h: Hand<Rank>)
  {
    NewHand(Ranks.Ordinal, input)
  }

  //
  // The interpretations of one card (`evaluate`)
  //

  /** The byte ranks a card's rank can stand for. */
  function CandidateRanks(r: Rank): (rs: seq<Byte>)
    ensures rs != []
  {
    match r
    case Joker => [1, 2, 3, 4, 5, 6, 7, 8, 9, 10, 11, 12, 13, 14]
    case Ace => [1, 14]
    case _ => [Ranks.Ordinal(r)]
  }

  /** The suits a card's suit can stand for. */
  function CandidateSuits(s: Suit): (ss: seq<Suit>)
    ensures ss != []
  {
    if s == Suits.None then ConcreteSuits else [s]
  }

  /** The nested `foreach`: every rank with every suit, rank-major. */
  function Pairs(ranks: seq<Byte>, suits: seq<Suit>): (r: seq<Card<Byte>>)
  {
    if ranks == [] then [] else Select(suits, (s: Suit) => Card(ranks[0], s)) + Pairs(ranks[1..], suits)
  }

  function Interpretations(c: Card<Rank>): seq<Card<Byte>>
  {
    Pairs(CandidateRanks(c.rank), CandidateSuits(c.suit))
  }

  lemma {:induction false} PairsMembership(ranks: seq<Byte>, suits: seq<Suit>, c: Card<Byte>)
    ensures c in Pairs(ranks, suits) <==> c.rank in ranks && c.suit in suits
  {
    if ranks != [] {
      PairsMembership(ranks[1..], suits, c);
      var row := Select(suits, (s: Suit) => Card(ranks[0], s));
      if c in row {
        var i :| 0 <= i < |row| && row[i] == c;
        assert c.suit == suits[i];
      }
      if c.rank == ranks[0] && c.suit in suits {
        var i :| 0 <= i < |suits| && suits[i] == c.suit;
        assert row[i] == c;
      }
      assert ranks == [ranks[0]] + ranks[1..];
    }
  }

  lemma {:induction false} PairsCount(ranks: seq<Byte>, suits: seq<Suit>)
    ensures |Pairs(ranks, suits)| == |ranks| * |suits|
  {
    if ranks != [] {
      PairsCount(ranks[1..], suits);
    }
  }

  /** The rank choices: 1..14 for a Joker, 1 or 14 for an Ace, the ordinal otherwise. */
  lemma CandidateRanksMembership(r: Rank, x: Byte)
    ensures x in CandidateRanks(r) <==>
      match r
      case Joker => 1 <= x <= 14
      case Ace => x == 1 || x == 14
      case _ => x == Ranks.Ordinal(r)
  {
    if r == Joker && 1 <= x <= 14 {
      assert CandidateRanks(r)[x - 1] == x;
    }
  }

  /** The suit choices: the four concrete suits for `None`, the suit itself otherwise. */
  lemma CandidateSuitsMembership(s: Suit, x: Suit)
    ensures x in CandidateSuits(s) <==> if s == Suits.None then x != Suits.None else x == s
  {
    ConcreteSuitsComplete(x);
  }

  /** A card stands for exactly the rank choices combined with the suit choices. */
  lemma InterpretationsMembership(c: Card<Rank>, x: Card<Byte>)
    ensures x in Interpretations(c) <==> x.rank in CandidateRanks(c.rank) && x.suit in CandidateSuits(c.suit)
  {
    PairsMembership(CandidateRanks(c.rank), CandidateSuits(c.suit), x);
  }

  /** A Joker without suit has 14 * 4 readings, an Ace 2 per suit choice, any other card 1 per suit choice. */
  lemma InterpretationsCount(c: Card<Rank>)
    ensures |Interpretations(c)| == |CandidateRanks(c.rank)| * |CandidateSuits(c.suit)|
    ensures |CandidateRanks(c.rank)| == match c.rank case Joker => 14 case Ace => 2 case _ => 1
    ensures |CandidateSuits(c.suit)| == if c.suit == Suits.None then 4 else 1
  {
    PairsCount(CandidateRanks(c.rank), CandidateSuits(c.suit));
  }

  //
  // Scenarios and strength
  //

  /** `this.Select(card => evaluate(card).ToList()).CrossProduct()` */
  function Scenarios(cards: seq<Card<Rank>>): seq<seq<Card<Byte>>>
  {
    CrossProduct(Select(cards, Interpretations))
  }

  /** `new HandStrength(new Hand<byte>(cards))` */
  function StrengthOf(cards: seq<Card<Byte>>): HandStrength
  {
    Evaluate(NewHand(ByteValue, cards))
  }

  function IsFive(cards: seq<Card<Byte>>): bool { |cards| == 5 }

  /**
   * `SelectMany(cards => cards.Subsets()).Select(new Hand<byte>).Where(Count == 5)`:
   * every five-card subset of every scenario.
   */
  function FiveCardSubsets(scenarios: seq<seq<Card<Byte>>>): seq<seq<Card<Byte>>>
  {
    Where(Flatten(Select(scenarios, Subsets)), IsFive)
  }

  /** Every card has a reading, so there is at least one scenario. */
  lemma {:induction false} ScenarioExists(cards: seq<Card<Rank>>)
    ensures Scenarios(cards) != []
  {
    var sets := Select(cards, Interpretations);
    var pick := seq(|sets|, i requires 0 <= i < |sets| => sets[i][0]);
    CrossProductMembership(sets, pick);
  }

  /** Each scenario reads each card once, in the hand's order. */
  lemma ScenarioShape(cards: seq<Card<Rank>>, sc: seq<Card<Byte>>)
    ensures sc in Scenarios(cards) <==> |sc| == |cards| && forall i :: 0 <= i < |sc| ==> sc[i] in Interpretations(cards[i])
  {
    CrossProductMembership(Select(cards, Interpretations), sc);
  }

  lemma {:induction false} PrefixSubsequence<T>(s: seq<T>, n: nat)
    requires n <= |s|
    ensures IsSubsequence(s[..n], s)
  {
    if n > 0 {
      PrefixSubsequence(s[1..], n - 1);
      assert s[..n][1..] == s[1..][..n - 1];
    } else {
      EmptySubsequence(s);
    }
  }

  /** The five-card subsets are exactly the length-5 subsequences of the scenarios. */
  lemma FiveCardSubsetsMembership(scenarios: seq<seq<Card<Byte>>>, x: seq<Card<Byte>>)
    ensures x in FiveCardSubsets(scenarios) <==>
      |x| == 5 && exists sc :: sc in scenarios && IsSubsequence(x, sc)
  {
    var sets := Select(scenarios, Subsets);
    FlattenMembership(sets, x);
    if x in Flatten(sets) {
      var k :| 0 <= k < |sets| && x in sets[k];
      SubsetsMembership(scenarios[k], x);
    }
    if |x| == 5 && exists sc :: sc in scenarios && IsSubsequence(x, sc) {
      var sc :| sc in scenarios && IsSubsequence(x, sc);
      var k :| 0 <= k < |scenarios| && scenarios[k] == sc;
      SubsetsMembership(sc, x);
      assert x in sets[k];
    }
  }

  /** With more than five cards some five-card subset exists. */
  lemma FiveCardSubsetExists(cards: seq<Card<Rank>>)
    requires |cards| > 5
    ensures FiveCardSubsets(Scenarios(cards)) != []
  {
    ScenarioExists(cards);
    var sc := Scenarios(cards)[0];
    ScenarioShape(cards, sc);
    PrefixSubsequence(sc, 5);
    FiveCardSubsetsMembership(Scenarios(cards), sc[..5]);
  }

  /**
   * `Strength`: not evaluated below five cards, the best scenario at five,
   * and the best five-card subset of any scenario above five.
   */
  function Strength(h: Hand<Rank>): (s: HandStrength)
  {
    if Count(h) < 5 then NotEvaluated
    else if Count(h) == 5 then
      ScenarioExists(h.cards);
      MaxStrength(Select(Scenarios(h.cards), StrengthOf))
    else
      FiveCardSubsetExists(h.cards);
      MaxStrength(Select(FiveCardSubsets(Scenarios(h.cards)), StrengthOf))
  }

  /** The best of `candidates` is one of them, and none beats it. */
  lemma BestOf(candidates: seq<seq<Card<Byte>>>)
    requires candidates != []
    ensures exists x :: x in candidates && StrengthOf(x) == MaxStrength(Select(candidates, StrengthOf))
    ensures forall x :: x in candidates ==> Compare(StrengthOf(x), MaxStrength(Select(candidates, StrengthOf))) <= 0
  {
    var ss := Select(candidates, StrengthOf);
    MaxIsMaximal(ss);
    var k :| 0 <= k < |ss| && ss[k] == MaxStrength(ss);
    assert candidates[k] in candidates;
    forall x | x in candidates ensures Compare(StrengthOf(x), MaxStrength(ss)) <= 0 {
      var j :| 0 <= j < |candidates| && candidates[j] == x;
      assert ss[j] == StrengthOf(x);
    }
  }

  /** The best of five-card candidates is evaluated. */
  lemma BestEvaluated(candidates: seq<seq<Card<Byte>>>)
    requires candidates != [] && forall x :: x in candidates ==> |x| == 5
    ensures MaxStrength(Select(candidates, StrengthOf)).handRank != HandRank.None
  {
    BestOf(candidates);
    var x :| x in candidates && StrengthOf(x) == MaxStrength(Select(candidates, StrengthOf));
    NewHandCount(ByteValue, x);
    KickerLengths(NewHand(ByteValue, x));
  }

  /** Fewer than five cards are not evaluated; five or more always are. */
  lemma StrengthNone(h: Hand<Rank>)
    ensures Strength(h).handRank == HandRank.None <==> Count(h) < 5
  {
    if Count(h) == 5 {
      ScenarioExists(h.cards);
      forall sc | sc in Scenarios(h.cards) ensures |sc| == 5 {
        ScenarioShape(h.cards, sc);
      }
      BestEvaluated(Scenarios(h.cards));
    } else if Count(h) > 5 {
      var subsets := FiveCardSubsets(Scenarios(h.cards));
      FiveCardSubsetExists(h.cards);
      forall x | x in subsets ensures |x| == 5 {
        FiveCardSubsetsMembership(Scenarios(h.cards), x);
      }
      BestEvaluated(subsets);
    }
  }

  /** Five cards: the strength is that of some scenario, and no scenario is stronger. */
  lemma StrengthOfFive(h: Hand<Rank>)
    requires Count(h) == 5
    ensures exists sc :: sc in Scenarios(h.cards) && StrengthOf(sc) == Strength(h)
    ensures forall sc :: sc in Scenarios(h.cards) ==> Compare(StrengthOf(sc), Strength(h)) <= 0
  {
    ScenarioExists(h.cards);
    BestOf(Scenarios(h.cards));
  }

  /** The best five-card subset of some scenario, beaten by no other. */
  lemma BestOfSubsets(scenarios: seq<seq<Card<Byte>>>)
    requires FiveCardSubsets(scenarios) != []
    ensures var best := MaxStrength(Select(FiveCardSubsets(scenarios), StrengthOf));
      && (exists sc, x :: sc in scenarios && IsSubsequence(x, sc) && |x| == 5 && StrengthOf(x) == best)
      && (forall sc, x :: sc in scenarios && IsSubsequence(x, sc) && |x| == 5 ==> Compare(StrengthOf(x), best) <= 0)
  {
    var subsets := FiveCardSubsets(scenarios);
    BestOf(subsets);
    var x :| x in subsets && StrengthOf(x) == MaxStrength(Select(subsets, StrengthOf));
    FiveCardSubsetsMembership(scenarios, x);
    forall sc, y | sc in scenarios && IsSubsequence(y, sc) && |y| == 5
      ensures Compare(StrengthOf(y), MaxStrength(Select(subsets, StrengthOf))) <= 0
    {
      FiveCardSubsetsMembership(scenarios, y);
    }
  }

  /**
   * More than five cards: the strength is that of some five-card subset of
   * some scenario, and no such subset is stronger.
   */
  lemma StrengthOfMore(h: Hand<Rank>)
    requires Count(h) > 5
    ensures exists sc, x :: sc in Scenarios(h.cards) && IsSubsequence(x, sc) && |x| == 5 && StrengthOf(x) == Strength(h)
    ensures forall sc, x :: sc in Scenarios(h.cards) && IsSubsequence(x, sc) && |x| == 5 ==>
      Compare(StrengthOf(x), Strength(h)) <= 0
  {
    FiveCardSubsetExists(h.cards);
    BestOfSubsets(Scenarios(h.cards));
  }

  //
  // Hands without wildcards
  //

  /** A card that stands only for itself: no Joker, no Ace, a suit. */
  predicate Fixed(c: Card<Rank>)
  {
    c.rank != Joker && c.rank != Ace && c.suit != Suits.None
  }

  function AsBytes(c: Card<Rank>): Card<Byte>
  {
    Card(Ranks.Ordinal(c.rank), c.suit)
  }

  /** A cross product of one-element sets has one result. */
  lemma {:induction false} CrossProductOfSingletons<T>(sets: seq<seq<T>>, x: seq<T>)
    requires |x| == |sets| && forall i :: 0 <= i < |sets| ==> sets[i] == [x[i]]
    ensures CrossProduct(sets) == [x]
  {
    if sets != [] {
      var tail := sets[1..];
      CrossProductOfSingletons(tail, x[1..]);
      assert sets[0] == [x[0]] && sets[0][1..] == [];
      assert PrependEachOf(sets[0], [x[1..]]) == PrependEach(x[0], [x[1..]]) + PrependEachOf([], [x[1..]]);
      assert x == [x[0]] + x[1..];
    }
  }

  /** Without wildcards there is one scenario: the cards themselves. */
  lemma FixedScenario(cards: seq<Card<Rank>>)
    requires forall i :: 0 <= i < |cards| ==> Fixed(cards[i])
    ensures Scenarios(cards) == [Select(cards, AsBytes)]
  {
    var sets := Select(cards, Interpretations);
    forall i | 0 <= i < |sets| ensures sets[i] == [AsBytes(cards[i])] {
      var rs := CandidateRanks(cards[i].rank);
      assert rs == [Ranks.Ordinal(cards[i].rank)];
      assert CandidateSuits(cards[i].suit) == [cards[i].suit];
      assert Pairs(rs, [cards[i].suit]) == Select([cards[i].suit], (s: Suit) => Card(rs[0], s)) + Pairs(rs[1..], [cards[i].suit]);
    }
    CrossProductOfSingletons(sets, Select(cards, AsBytes));
  }

  /** Five cards without wildcards are worth exactly their own evaluation. */
  lemma FixedStrength(h: Hand<Rank>)
    requires Count(h) == 5 && forall i :: 0 <= i < |h.cards| ==> Fixed(h.cards[i])
    ensures Strength(h) == StrengthOf(Select(h.cards, AsBytes))
  {
    FixedScenario(h.cards);
    var ss := Select(Scenarios(h.cards), StrengthOf);
    assert ss == [StrengthOf(Select(h.cards, AsBytes))];
  }

  //
  // Equality
  //

  /** `Enumerable.SequenceEqual` with `Card` equality. */
  predicate SequenceEqual(a: seq<Card<Rank>>, b: seq<Card<Rank>>)
  {
    |a| == |b| && forall i :: 0 <= i < |a| ==> Cards.Equals(a[i], b[i])
  }

  /** `Hand.Equals`: the sorted cards, compared element by element. */
  predicate HandEquals(a: Hand<Rank>, b: Hand<Rank>)
  {
    SequenceEqual(a.cards, b.cards)
  }

  /** Hands are equal exactly when their sorted card sequences are. */
  lemma HandEqualsIff(a: Hand<Rank>, b: Hand<Rank>)
    ensures HandEquals(a, b) <==> a.cards == b.cards
  {
    if HandEquals(a, b) {
      forall i | 0 <= i < |a.cards| ensures a.cards[i] == b.cards[i] {
        EqualsIsEquality(a.cards[i], b.cards[i]);
      }
    }
  }

  /** The same two cards given in the other order make a different hand. */
  lemma EqualityOrderSensitive()
    ensures !HandEquals(NewPlayerHand([Card(Ace, Spades), Card(Ace, Hearts)]), NewPlayerHand([Card(Ace, Hearts), Card(Ace, Spades)]))
  {
    InputOrderMatters();
    HandEqualsIff(NewPlayerHand([Card(Ace, Spades), Card(Ace, Hearts)]), NewPlayerHand([Card(Ace, Hearts), Card(Ace, Spades)]));
  }

  //
  // Parsing
  //

  /** `Split(new[] { ' ' }, StringSplitOptions.RemoveEmptyEntries)` */
  function SplitOnSpaces(s: string): (tokens: seq<string>)
    ensures forall t :: t in tokens ==> t != [] && ' ' !in t
  {
    SplitFrom(s, [])
  }

  /** Splitting with `current` holding the token read so far. */
  function SplitFrom(s: string, current: string): (tokens: seq<string>)
    requires ' ' !in current
    ensures forall t :: t in tokens ==> t != [] && ' ' !in t
  {
    if s == [] then (if current == [] then [] else [current])
    else if s[0] == ' ' then (if current == [] then [] else [current]) + SplitFrom(s[1..], [])
    else SplitFrom(s[1..], current + [s[0]])
  }

  /** The tokens joined with single spaces. */
  function JoinWithSpaces(tokens: seq<string>): string
  {
    if tokens == [] then []
    else if |tokens| == 1 then tokens[0]
    else tokens[0] + " " + JoinWithSpaces(tokens[1..])
  }

  lemma {:induction false} SplitToken(t: string, rest: string, current: string)
    requires ' ' !in t && ' ' !in current
    requires rest == [] || rest[0] == ' '
    ensures SplitFrom(t + rest, current) == SplitFrom(rest, current + t)
  {
    if t != [] {
      assert (t + rest)[0] == t[0] && (t + rest)[1..] == t[1..] + rest;
      assert current + t == (current + [t[0]]) + t[1..];
      SplitToken(t[1..], rest, current + [t[0]]);
    } else {
      assert t + rest == rest && current + t == current;
    }
  }

  /** Splitting undoes joining, for tokens that are non-empty and free of spaces. */
  lemma {:induction false} SplitJoin(tokens: seq<string>)
    requires forall i :: 0 <= i < |tokens| ==> tokens[i] != [] && ' ' !in tokens[i]
    ensures SplitOnSpaces(JoinWithSpaces(tokens)) == tokens
  {
    if |tokens| == 1 {
      SplitToken(tokens[0], [], []);
      assert tokens[0] + [] == tokens[0] && [] + tokens[0] == tokens[0];
      assert JoinWithSpaces(tokens) == tokens[0];
    } else if |tokens| > 1 {
      var rest := " " + JoinWithSpaces(tokens[1..]);
      assert JoinWithSpaces(tokens) == tokens[0] + rest;
      SplitToken(tokens[0], rest, []);
      assert [] + tokens[0] == tokens[0];
      assert rest[1..] == JoinWithSpaces(tokens[1..]);
      SplitJoin(tokens[1..]);
      assert tokens == [tokens[0]] + tokens[1..];
    }
  }

  /**
   * A space separates tokens: whatever is on either side of it splits on
   * its own, so leading, trailing and repeated spaces give no empty token.
   */
  lemma SplitSeparator(a: string, b: string)
    ensures SplitOnSpaces(a + " " + b) == SplitOnSpaces(a) + SplitOnSpaces(b)
  {
    SplitFromSeparator(a, b, []);
  }

  lemma {:induction false} SplitFromSeparator(a: string, b: string, current: string)
    requires ' ' !in current
    ensures SplitFrom(a + " " + b, current) == SplitFrom(a, current) + SplitOnSpaces(b)
    decreases |a|
  {
    var s := a + " " + b;
    if a == [] {
      assert s[0] == ' ' && s[1..] == b;
    } else {
      assert s[0] == a[0] && s[1..] == a[1..] + " " + b;
      if a[0] == ' ' {
        SplitFromSeparator(a[1..], b, []);
      } else {
        SplitFromSeparator(a[1..], b, current + [a[0]]);
      }
    }
  }

  /** Spaces alone, or nothing, give no tokens. */
  lemma {:induction false} SplitBlank(s: string)
    requires forall i :: 0 <= i < |s| ==> s[i] == ' '
    ensures SplitOnSpaces(s) == []
  {
    if s != [] {
      assert s == [] + " " + s[1..];
      SplitSeparator([], s[1..]);
      SplitBlank(s[1..]);
    }
  }

  /** Padding and repeated spaces are dropped: "  AS  KD " gives "AS" and "KD". */
  lemma SplitPadded()
    ensures SplitOnSpaces("  AS  KD ") == ["AS", "KD"]
  {
    assert "  AS  KD " == "" + " " + " AS  KD ";
    assert " AS  KD " == "" + " " + "AS  KD ";
    assert "AS  KD " == "AS" + " " + " KD ";
    assert " KD " == "" + " " + "KD ";
    assert "KD " == "KD" + " " + "";
    SplitSeparator("", " AS  KD ");
    SplitSeparator("", "AS  KD ");
    SplitSeparator("AS", " KD ");
    SplitSeparator("", "KD ");
    SplitSeparator("KD", "");
    SplitBlank("");
    SplitJoin(["AS"]);
    SplitJoin(["KD"]);
  }

  /** Parses the tokens in order; the first failure is the result. */
  function ParseCards(tokens: seq<string>): (r: Result<seq<Card<Rank>>, ParseError>)
    ensures r.Success? ==> |r.value| == |tokens| && forall i :: 0 <= i < |tokens| ==> Cards.Parse(tokens[i]) == Success(r.value[i])
  {
    if tokens == [] then Success([])
    else match Cards.Parse(tokens[0])
      case Failure(e) => Failure(e)
      case Success(c) =>
        match ParseCards(tokens[1..])
        case Failure(e) => Failure(e)
        case Success(cs) => Success([c] + cs)
  }

  /** `Hand.Parse` */
  function ParseHand(input: string): (r: Result<Hand<Rank>, ParseError>)
  {
    match ParseCards(SplitOnSpaces(input))
    case Failure(e) => Failure(e)
    case Success(cards) => Success(NewPlayerHand(cards))
  }

  /** The token of a card with a named rank and a concrete suit. */
  function CardSymbol(c: Card<Rank>): string
  {
    Ranks.Symbol(c.rank) + Suits.Symbol(c.suit)
  }

  /** A parse fails exactly when some token fails, and then with the first token's error. */
  lemma {:induction false} ParseCardsFirstError(tokens: seq<string>, k: nat)
    requires k < |tokens| && Cards.Parse(tokens[k]).Failure?
    requires forall i :: 0 <= i < k ==> Cards.Parse(tokens[i]).Success?
    ensures ParseCards(tokens) == Failure(Cards.Parse(tokens[k]).error)
  {
    if k > 0 {
      ParsedPrefix(tokens, k);
      ParseCardsFirstError(tokens[1..], k - 1);
      var head := Cards.Parse(tokens[0]);
      assert head.Success?;
    }
  }

  lemma ParsedPrefix(tokens: seq<string>, k: nat)
    requires 0 < k < |tokens|
    requires forall i :: 0 <= i < k ==> Cards.Parse(tokens[i]).Success?
    ensures forall i :: 0 <= i < k - 1 ==> Cards.Parse(tokens[1..][i]).Success?
    ensures tokens[1..][k - 1] == tokens[k]
  {
    forall i | 0 <= i < k - 1 ensures Cards.Parse(tokens[1..][i]).Success? {
      assert tokens[1..][i] == tokens[i + 1];
    }
  }

  /** Parsing the symbols of standard cards, joined by spaces, gives the hand of those cards. */
  lemma ParseHandOfSymbols(cards: seq<Card<Rank>>)
    requires forall i :: 0 <= i < |cards| ==> cards[i].rank != Joker && cards[i].suit != Suits.None
    ensures ParseHand(JoinWithSpaces(Select(cards, CardSymbol))) == Success(NewPlayerHand(cards))
  {
    var tokens := Select(cards, CardSymbol);
    forall i | 0 <= i < |tokens| ensures tokens[i] != [] && ' ' !in tokens[i] && Cards.Parse(tokens[i]) == Success(cards[i]) {
      RankSymbolRoundTrip(cards[i].rank);
      SuitSymbolRoundTrip(cards[i].suit);
      ParseSymbols(cards[i].rank, cards[i].suit);
      assert tokens[i] == [Ranks.Symbol(cards[i].rank)[0], Suits.Symbol(cards[i].suit)[0]];
    }
    SplitJoin(tokens);
    ParseCardsOfParsed(tokens, cards);
  }

  lemma {:induction false} ParseCardsOfParsed(tokens: seq<string>, cards: seq<Card<Rank>>)
    requires |tokens| == |cards| && forall i :: 0 <= i < |tokens| ==> Cards.Parse(tokens[i]) == Success(cards[i])
    ensures ParseCards(tokens) == Success(cards)
  {
    if tokens != [] {
      ParsedTail(tokens, cards);
      ParseCardsOfParsed(tokens[1..], cards[1..]);
      var head := Cards.Parse(tokens[0]);
      assert head == Success(cards[0]);
      assert cards == [cards[0]] + cards[1..];
    }
  }

  lemma ParsedTail(tokens: seq<string>, cards: seq<Card<Rank>>)
    requires tokens != [] && |tokens| == |cards|
    requires forall i :: 0 <= i < |tokens| ==> Cards.Parse(tokens[i]) == Success(cards[i])
    ensures forall i :: 0 <= i < |tokens| - 1 ==> Cards.Parse(tokens[1..][i]) == Success(cards[1..][i])
  {
    forall i | 0 <= i < |tokens| - 1 ensures Cards.Parse(tokens[1..][i]) == Success(cards[1..][i]) {
      assert tokens[1..][i] == tokens[i + 1];
    }
  }
}
