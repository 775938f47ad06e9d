/**
 * The five-card evaluator and its ordering (HandStrength.cs): a category
 * and a list of kicker ranks computed from one concrete interpretation of
 * five cards, and the comparison that orders the results.
 */
module HandStrengths {
  import opened Linq
  import opened Cards
  import opened Suits
  import opened HandRanks
  import opened SortedHands

  datatype HandStrength = HandStrength(handRank: HandRank, kickers: seq<Byte>)

  /** `new HandStrength(HandRank.None)`: no category and no kickers. */
  const NotEvaluated: HandStrength := HandStrength(HandRank.None, [])

  function CardRank(c: Card<Byte>): Byte { c.rank }

  function CardSuit(c: Card<Byte>): Suit { c.suit }

  function RanksOf(cards: seq<Card<Byte>>): (r: seq<Byte>)
    ensures |r| == |cards| && forall i :: 0 <= i < |cards| ==> r[i] == cards[i].rank
  {
    Select(cards, CardRank)
  }

  /** `hand.Zip(hand.Skip(1)).All(pair => pair.First.Rank - pair.Second.Rank == 1)` */
  predicate IsStraight(cards: seq<Card<Byte>>)
  {
    |cards| < 2 || (cards[0].rank - cards[1].rank == 1 && IsStraight(cards[1..]))
  }

  /** `hand.Select(card => card.Suit).Distinct().Count() == 1` */
  predicate IsFlush(cards: seq<Card<Byte>>)
  {
    |Distinct(Select(cards, CardSuit))| == 1
  }

  //
  // Grouping by rank
  //

  /** One `GroupBy` group, reduced to its size and key. */
  datatype Group = Group(count: nat, rank: Byte)

  function GroupCount(g: Group): int { g.count }

  function GroupRank(g: Group): Byte { g.rank }

  /** The group of each key, in the order of the keys. */
  function GroupsFor(keys: seq<Byte>, ranks: seq<Byte>): (gs: seq<Group>)
    ensures |gs| == |keys|
    ensures forall i :: 0 <= i < |keys| ==> gs[i] == Group(CountOf(ranks, keys[i]), keys[i])
  {
    if keys == [] then [] else [Group(CountOf(ranks, keys[0]), keys[0])] + GroupsFor(keys[1..], ranks)
  }

  /** `GroupBy(rank)` with `(Count, Key)`: one group per distinct rank, in order of first occurrence. */
  function GroupsOf(ranks: seq<Byte>): seq<Group>
  {
    GroupsFor(Distinct(ranks), ranks)
  }

  /** Orders by count, then by rank: ranks are bytes, so the key is a two-digit number in base 256. */
  function GroupKey(g: Group): int { g.count * 256 + g.rank }

  /** `OrderByDescending(Count).ThenByDescending(Rank)` */
  function SortedGroups(cards: seq<Card<Byte>>): seq<Group>
  {
    SortDescending(GroupsOf(RanksOf(cards)), GroupKey)
  }

  /** `groups.Select(group => group.Count).Skip(k).FirstOrDefault()` */
  function CountAt(gs: seq<Group>, k: nat): nat
  {
    if k < |gs| then gs[k].count else 0
  }

  /** `Take(n)` */
  function Take<T>(s: seq<T>, n: nat): (r: seq<T>)
    ensures |r| == if |s| <= n then |s| else n
  {
    if |s| <= n then s else s[..n]
  }

  /** `new HandStrength(Hand<byte>)`: only five cards are evaluated. */
  function Evaluate(hand: Hand<Byte>): (s: HandStrength)
    ensures Count(hand) != 5 ==> s == NotEvaluated
  {
    if Count(hand) != 5 then NotEvaluated
    else Classify(IsStraight(hand.cards), IsFlush(hand.cards), SortedGroups(hand.cards))
  }

  /**
   * The `switch` on `(isStraight, isFlush, counts)`, arms in source order.
   * Only the straight arms keep a single kicker; every other arm keeps one
   * kicker per distinct rank.
   */
  function Classify(straight: bool, flush: bool, groups: seq<Group>): (s: HandStrength)
  {
    var first, second := CountAt(groups, 0), CountAt(groups, 1);
    var ranks := Select(groups, GroupRank);
    if first == 5 then HandStrength(FiveOfAKind, ranks)
    else if straight && flush then HandStrength(StraightFlush, Take(ranks, 1))
    else if straight then HandStrength(Straight, Take(ranks, 1))
    else if flush then HandStrength(Flush, ranks)
    else if first == 4 then HandStrength(FourOfAKind, ranks)
    else if first == 3 && second == 2 then HandStrength(FullHouse, ranks)
    else if first == 3 then HandStrength(ThreeOfAKind, ranks)
    else if first == 2 && second == 2 then HandStrength(TwoPair, ranks)
    else if first == 2 then HandStrength(OnePair, ranks)
    else HandStrength(HighCard, ranks)
  }

  //
  // Facts about the groups
  //

  /**
   * What the sorted groups of a hand with ranks `ranks` are: one per
   * distinct rank, holding that rank's multiplicity, ordered by count and
   * then by rank, both descending, and together covering every card.
   */
  ghost predicate GroupsOfRanks(gs: seq<Group>, ranks: seq<Byte>)
  {
    && (forall i :: 0 <= i < |gs| ==> gs[i].rank in ranks && gs[i].count == CountOf(ranks, gs[i].rank))
    && (forall x :: x in ranks ==> exists i :: 0 <= i < |gs| && gs[i].rank == x)
    && (forall i, j :: 0 <= i < j < |gs| ==>
          gs[i].count > gs[j].count || (gs[i].count == gs[j].count && gs[i].rank > gs[j].rank))
    && SumBy(gs, GroupCount) == |ranks|
  }

  lemma {:induction false} GroupsForEmpty(keys: seq<Byte>)
    ensures SumBy(GroupsFor(keys, []), GroupCount) == 0
  {
    if keys != [] {
      assert GroupsFor(keys, [])[1..] == GroupsFor(keys[1..], []);
      GroupsForEmpty(keys[1..]);
    }
  }

  lemma {:induction false} GroupsForCons(keys: seq<Byte>, a: Byte, rest: seq<Byte>)
    ensures SumBy(GroupsFor(keys, [a] + rest), GroupCount) == CountOf(keys, a) + SumBy(GroupsFor(keys, rest), GroupCount)
  {
    if keys != [] {
      assert ([a] + rest)[1..] == rest;
      assert GroupsFor(keys, [a] + rest)[1..] == GroupsFor(keys[1..], [a] + rest);
      assert GroupsFor(keys, rest)[1..] == GroupsFor(keys[1..], rest);
      GroupsForCons(keys[1..], a, rest);
    }
  }

  /** Summing the multiplicities of a duplicate-free list of keys that covers `ranks` counts every rank once. */
  lemma {:induction false} GroupsForSum(keys: seq<Byte>, ranks: seq<Byte>)
    requires IsDistinct(keys)
    requires forall x :: x in ranks ==> x in keys
    ensures SumBy(GroupsFor(keys, ranks), GroupCount) == |ranks|
  {
    if ranks == [] {
      GroupsForEmpty(keys);
    } else {
      assert ranks == [ranks[0]] + ranks[1..];
      GroupsForCons(keys, ranks[0], ranks[1..]);
      CountOfDistinct(keys, ranks[0]);
      GroupsForSum(keys, ranks[1..]);
    }
  }

  /** The unsorted groups: one per distinct rank, so no two are equal. */
  lemma GroupsOfDistinct(ranks: seq<Byte>)
    ensures IsDistinct(GroupsOf(ranks))
    ensures forall g :: g in GroupsOf(ranks) <==> g.rank in ranks && g.count == CountOf(ranks, g.rank)
  {
    var keys := Distinct(ranks);
    var unsorted := GroupsOf(ranks);
    forall i, j | 0 <= i < j < |unsorted| ensures unsorted[i] != unsorted[j] {
      assert unsorted[i].rank == keys[i] && unsorted[j].rank == keys[j];
    }
    forall g ensures g in unsorted <==> g.rank in ranks && g.count == CountOf(ranks, g.rank) {
      if g.rank in ranks && g.count == CountOf(ranks, g.rank) {
        var k :| 0 <= k < |keys| && keys[k] == g.rank;
        assert unsorted[k] == g;
      }
    }
  }

  lemma SortedGroupsMembers(cards: seq<Card<Byte>>)
    ensures IsDistinct(SortedGroups(cards))
    ensures forall g :: g in SortedGroups(cards) <==> g.rank in RanksOf(cards) && g.count == CountOf(RanksOf(cards), g.rank)
  {
    var ranks := RanksOf(cards);
    var gs := SortedGroups(cards);
    GroupsOfDistinct(ranks);
    PermutationDistinct(GroupsOf(ranks), gs);
    forall g ensures g in gs <==> g in GroupsOf(ranks) {
      assert g in gs <==> g in multiset(gs);
    }
  }

  lemma SortedGroupsOrder(cards: seq<Card<Byte>>)
    ensures forall i, j :: 0 <= i < j < |SortedGroups(cards)| ==>
      SortedGroups(cards)[i].count > SortedGroups(cards)[j].count
      || (SortedGroups(cards)[i].count == SortedGroups(cards)[j].count && SortedGroups(cards)[i].rank > SortedGroups(cards)[j].rank)
  {
    var gs := SortedGroups(cards);
    SortedGroupsMembers(cards);
    forall i, j | 0 <= i < j < |gs|
      ensures gs[i].count > gs[j].count || (gs[i].count == gs[j].count && gs[i].rank > gs[j].rank)
    {
      assert gs[i] in gs && gs[j] in gs;
      assert gs[i].rank != gs[j].rank;
      assert GroupKey(gs[i]) >= GroupKey(gs[j]);
    }
  }

  lemma SortedGroupsSum(cards: seq<Card<Byte>>)
    ensures SumBy(SortedGroups(cards), GroupCount) == |cards|
  {
    var ranks := RanksOf(cards);
    GroupsForSum(Distinct(ranks), ranks);
    SortDescendingSum(GroupsOf(ranks), GroupKey, GroupCount);
  }

  /** The sorted groups of any cards are as GroupsOfRanks describes. */
  lemma SortedGroupsOfRanks(cards: seq<Card<Byte>>)
    ensures GroupsOfRanks(SortedGroups(cards), RanksOf(cards))
  {
    var ranks := RanksOf(cards);
    var gs := SortedGroups(cards);
    SortedGroupsMembers(cards);
    SortedGroupsOrder(cards);
    SortedGroupsSum(cards);
    forall i | 0 <= i < |gs| ensures gs[i].rank in ranks && gs[i].count == CountOf(ranks, gs[i].rank) {
      assert gs[i] in gs;
    }
    forall x | x in ranks ensures exists i :: 0 <= i < |gs| && gs[i].rank == x {
      assert Group(CountOf(ranks, x), x) in gs;
    }
  }

  //
  // The five-card profile
  //

  lemma {:induction false} SumAtLeastLength(gs: seq<Group>)
    requires forall i :: 0 <= i < |gs| ==> gs[i].count >= 1
    ensures SumBy(gs, GroupCount) >= |gs|
  {
    if gs != [] {
      assert forall i :: 0 <= i < |gs[1..]| ==> gs[1..][i] == gs[i + 1];
      SumAtLeastLength(gs[1..]);
    }
  }

  lemma {:induction false} UnrollSum(gs: seq<Group>)
    requires |gs| <= 5
    ensures SumBy(gs, GroupCount) == CountAt(gs, 0) + CountAt(gs, 1) + CountAt(gs, 2) + CountAt(gs, 3) + CountAt(gs, 4)
  {
    if gs != [] {
      UnrollSum(gs[1..]);
      assert forall k :: 0 <= k < 4 ==> CountAt(gs[1..], k) == CountAt(gs, k + 1);
    }
  }

  /**
   * The group sizes of five cards, as linear facts: between one and five
   * groups, sizes non-increasing, at least one in each group, five in all.
   */
  lemma Profile(gs: seq<Group>, ranks: seq<Byte>)
    requires GroupsOfRanks(gs, ranks) && |ranks| == 5
    ensures 1 <= |gs| <= 5
    ensures forall k :: 0 <= k < |gs| ==> CountAt(gs, k) >= 1
    ensures forall k :: |gs| <= k ==> CountAt(gs, k) == 0
    ensures CountAt(gs, 0) >= CountAt(gs, 1) >= CountAt(gs, 2) >= CountAt(gs, 3) >= CountAt(gs, 4)
    ensures CountAt(gs, 0) + CountAt(gs, 1) + CountAt(gs, 2) + CountAt(gs, 3) + CountAt(gs, 4) == 5
  {
    forall i | 0 <= i < |gs| ensures gs[i].count >= 1 {
      assert gs[i].rank in ranks;
    }
    SumAtLeastLength(gs);
    assert ranks[0] in ranks;
    UnrollSum(gs);
  }

  /** The number of kickers each category keeps, outside Flush. */
  function KickerCount(h: HandRank): nat
  {
    match h
    case None => 0
    case FiveOfAKind => 1
    case StraightFlush => 1
    case Straight => 1
    case FourOfAKind => 2
    case FullHouse => 2
    case ThreeOfAKind => 3
    case TwoPair => 3
    case OnePair => 4
    case HighCard => 5
    case Flush => 5
  }

  /**
   * Outside Flush the category fixes the number of kickers; a flush keeps
   * one per distinct rank, which only wildcards can make fewer than five.
   */
  lemma KickerLengths(hand: Hand<Byte>)
    requires Count(hand) == 5
    ensures Evaluate(hand).handRank != HandRank.None
    ensures Evaluate(hand).handRank != Flush ==> |Evaluate(hand).kickers| == KickerCount(Evaluate(hand).handRank)
    ensures Evaluate(hand).handRank == Flush ==> 2 <= |Evaluate(hand).kickers| <= 5
  {
    var gs := SortedGroups(hand.cards);
    SortedGroupsOfRanks(hand.cards);
    Profile(gs, RanksOf(hand.cards));
    ClassifyKickers(IsStraight(hand.cards), IsFlush(hand.cards), gs);
  }

  lemma ClassifyKickers(straight: bool, flush: bool, gs: seq<Group>)
    requires 1 <= |gs| <= 5
    requires forall k :: 0 <= k < |gs| ==> CountAt(gs, k) >= 1
    requires forall k :: |gs| <= k ==> CountAt(gs, k) == 0
    requires CountAt(gs, 0) >= CountAt(gs, 1) >= CountAt(gs, 2) >= CountAt(gs, 3) >= CountAt(gs, 4)
    requires CountAt(gs, 0) + CountAt(gs, 1) + CountAt(gs, 2) + CountAt(gs, 3) + CountAt(gs, 4) == 5
    ensures Classify(straight, flush, gs).handRank != HandRank.None
    ensures Classify(straight, flush, gs).handRank != Flush ==>
      |Classify(straight, flush, gs).kickers| == KickerCount(Classify(straight, flush, gs).handRank)
    ensures Classify(straight, flush, gs).handRank == Flush ==> 2 <= |Classify(straight, flush, gs).kickers| <= 5
  {
    assert CountAt(gs, 0) == 5 ==> |gs| == 1;
  }

  //
  // A reference classification
  //

  /** Adjacent cards differ by exactly one in rank. */
  ghost predicate Consecutive(cards: seq<Card<Byte>>)
  {
    forall i :: 0 <= i < |cards| - 1 ==> cards[i].rank - cards[i + 1].rank == 1
  }

  /** All cards have the suit of the first. */
  ghost predicate SameSuit(cards: seq<Card<Byte>>)
  {
    forall i :: 0 <= i < |cards| ==> cards[i].suit == cards[0].suit
  }

  /** Some rank occurs exactly `n` times among the cards. */
  ghost predicate HasMultiplicity(ranks: seq<Byte>, n: nat)
  {
    exists i :: 0 <= i < |ranks| && CountOf(ranks, ranks[i]) == n
  }

  /** Two different ranks occur exactly twice each. */
  ghost predicate HasTwoPairs(ranks: seq<Byte>)
  {
    exists i, j :: 0 <= i < |ranks| && 0 <= j < |ranks| && ranks[i] != ranks[j]
      && CountOf(ranks, ranks[i]) == 2 && CountOf(ranks, ranks[j]) == 2
  }

  /** The category of five cards by rank multiplicities, stated without groups. */
  ghost function Category(cards: seq<Card<Byte>>): HandRank
  {
    var ranks := RanksOf(cards);
    if |cards| != 5 then HandRank.None
    else if HasMultiplicity(ranks, 5) then FiveOfAKind
    else if Consecutive(cards) && SameSuit(cards) then StraightFlush
    else if Consecutive(cards) then Straight
    else if SameSuit(cards) then Flush
    else if HasMultiplicity(ranks, 4) then FourOfAKind
    else if HasMultiplicity(ranks, 3) && HasMultiplicity(ranks, 2) then FullHouse
    else if HasMultiplicity(ranks, 3) then ThreeOfAKind
    else if HasTwoPairs(ranks) then TwoPair
    else if HasMultiplicity(ranks, 2) then OnePair
    else HighCard
  }

  /** The straight test is the adjacent-difference condition. */
  lemma {:induction false} StraightIff(cards: seq<Card<Byte>>)
    ensures IsStraight(cards) <==> Consecutive(cards)
  {
    if |cards| >= 2 {
      StraightIff(cards[1..]);
      assert forall i :: 0 <= i < |cards| - 1 ==> cards[1..][i] == cards[i + 1];
      if Consecutive(cards[1..]) && cards[0].rank - cards[1].rank == 1 {
        forall i | 0 <= i < |cards| - 1 ensures cards[i].rank - cards[i + 1].rank == 1 {
          if i > 0 { assert cards[1..][i - 1] == cards[i]; }
        }
      }
    }
  }

  /** The flush test holds exactly when every card has the first card's suit. */
  lemma FlushIff(cards: seq<Card<Byte>>)
    requires cards != []
    ensures IsFlush(cards) <==> SameSuit(cards)
  {
    var suits := Select(cards, CardSuit);
    var d := Distinct(suits);
    assert suits[0] in d;
    if SameSuit(cards) {
      forall x | x in d ensures x == suits[0] {
        var k :| 0 <= k < |suits| && suits[k] == x;
      }
      DistinctConstant(d, suits[0]);
      assert IsFlush(cards);
    }
    if IsFlush(cards) {
      assert |d| == 1;
      forall i | 0 <= i < |cards| ensures cards[i].suit == cards[0].suit {
        assert suits[i] in d;
        assert suits[i] == d[0] && suits[0] == d[0];
      }
    }
  }

  /** Multiplicities of ranks are the sizes of groups. */
  lemma MultiplicityIsGroupSize(gs: seq<Group>, ranks: seq<Byte>, n: nat)
    requires GroupsOfRanks(gs, ranks)
    ensures HasMultiplicity(ranks, n) <==> exists k :: 0 <= k < |gs| && gs[k].count == n
  {
    if HasMultiplicity(ranks, n) {
      var i :| 0 <= i < |ranks| && CountOf(ranks, ranks[i]) == n;
      assert ranks[i] in ranks;
      var k :| 0 <= k < |gs| && gs[k].rank == ranks[i];
    }
    if exists k :: 0 <= k < |gs| && gs[k].count == n {
      var k :| 0 <= k < |gs| && gs[k].count == n;
      var i :| 0 <= i < |ranks| && ranks[i] == gs[k].rank;
    }
  }

  /** Two different ranks occurring twice are the first two groups of five cards. */
  lemma TwoPairsAreGroups(gs: seq<Group>, ranks: seq<Byte>)
    requires GroupsOfRanks(gs, ranks) && |ranks| == 5
    ensures HasTwoPairs(ranks) <==> CountAt(gs, 0) == 2 && CountAt(gs, 1) == 2
  {
    if HasTwoPairs(ranks) {
      TwoPairsFirstGroups(gs, ranks);
    }
    if CountAt(gs, 0) == 2 && CountAt(gs, 1) == 2 {
      FirstGroupsTwoPairs(gs, ranks);
    }
  }

  lemma TwoPairsFirstGroups(gs: seq<Group>, ranks: seq<Byte>)
    requires GroupsOfRanks(gs, ranks) && |ranks| == 5 && HasTwoPairs(ranks)
    ensures CountAt(gs, 0) == 2 && CountAt(gs, 1) == 2
  {
    Profile(gs, ranks);
    var i, j :| 0 <= i < |ranks| && 0 <= j < |ranks| && ranks[i] != ranks[j]
      && CountOf(ranks, ranks[i]) == 2 && CountOf(ranks, ranks[j]) == 2;
    assert ranks[i] in ranks && ranks[j] in ranks;
    var k1 :| 0 <= k1 < |gs| && gs[k1].rank == ranks[i];
    var k2 :| 0 <= k2 < |gs| && gs[k2].rank == ranks[j];
    TwoCountsOfTwo(gs, k1, k2);
  }

  lemma FirstGroupsTwoPairs(gs: seq<Group>, ranks: seq<Byte>)
    requires GroupsOfRanks(gs, ranks) && |ranks| == 5
    requires CountAt(gs, 0) == 2 && CountAt(gs, 1) == 2
    ensures HasTwoPairs(ranks)
  {
    Profile(gs, ranks);
    var i :| 0 <= i < |ranks| && ranks[i] == gs[0].rank;
    var j :| 0 <= j < |ranks| && ranks[j] == gs[1].rank;
    assert ranks[i] != ranks[j];
  }

  /** Arithmetic on the profile: two groups of two among five cards come first. */
  lemma TwoCountsOfTwo(gs: seq<Group>, k1: nat, k2: nat)
    requires 1 <= |gs| <= 5 && k1 < |gs| && k2 < |gs| && k1 != k2
    requires CountAt(gs, k1) == 2 && CountAt(gs, k2) == 2
    requires forall k :: 0 <= k < |gs| ==> CountAt(gs, k) >= 1
    requires forall k :: |gs| <= k ==> CountAt(gs, k) == 0
    requires CountAt(gs, 0) >= CountAt(gs, 1) >= CountAt(gs, 2) >= CountAt(gs, 3) >= CountAt(gs, 4)
    requires CountAt(gs, 0) + CountAt(gs, 1) + CountAt(gs, 2) + CountAt(gs, 3) + CountAt(gs, 4) == 5
    ensures CountAt(gs, 0) == 2 && CountAt(gs, 1) == 2
  {
  }

  /** The groups sizes, read off as "some group has exactly n cards". */
  lemma SomeGroupOfSize(gs: seq<Group>, n: nat)
    requires |gs| <= 5 && n >= 1
    ensures (exists k :: 0 <= k < |gs| && gs[k].count == n) <==>
      (CountAt(gs, 0) == n || CountAt(gs, 1) == n || CountAt(gs, 2) == n || CountAt(gs, 3) == n || CountAt(gs, 4) == n)
  {
    if exists k :: 0 <= k < |gs| && gs[k].count == n {
      var k :| 0 <= k < |gs| && gs[k].count == n;
      assert CountAt(gs, k) == n;
    }
    var k := if CountAt(gs, 0) == n then 0 else if CountAt(gs, 1) == n then 1
      else if CountAt(gs, 2) == n then 2 else if CountAt(gs, 3) == n then 3 else 4;
    if CountAt(gs, k) == n {
      assert k < |gs| && gs[k].count == n;
    }
  }

  lemma MultiplicityAt(gs: seq<Group>, ranks: seq<Byte>, n: nat)
    requires GroupsOfRanks(gs, ranks) && |ranks| == 5 && n >= 1
    ensures HasMultiplicity(ranks, n) <==>
      (CountAt(gs, 0) == n || CountAt(gs, 1) == n || CountAt(gs, 2) == n || CountAt(gs, 3) == n || CountAt(gs, 4) == n)
  {
    Profile(gs, ranks);
    MultiplicityIsGroupSize(gs, ranks, n);
    SomeGroupOfSize(gs, n);
  }

  /** The evaluator classifies exactly as the multiplicity-based reference does. */
  lemma EvaluateCategory(hand: Hand<Byte>)
    ensures Evaluate(hand).handRank == Category(hand.cards)
  {
    if Count(hand) == 5 {
      assert Evaluate(hand) == Classify(IsStraight(hand.cards), IsFlush(hand.cards), SortedGroups(hand.cards));
      var ranks := RanksOf(hand.cards);
      var gs := SortedGroups(hand.cards);
      SortedGroupsOfRanks(hand.cards);
      Profile(gs, ranks);
      StraightIff(hand.cards);
      FlushIff(hand.cards);
      MultiplicityAt(gs, ranks, 2);
      MultiplicityAt(gs, ranks, 3);
      MultiplicityAt(gs, ranks, 4);
      MultiplicityAt(gs, ranks, 5);
      TwoPairsAreGroups(gs, ranks);
    }
  }

  //
  // Kickers
  //

  /** Adjacent ranks falling by one: the j-th card is j below the first. */
  lemma {:induction false} ConsecutiveOffset(cards: seq<Card<Byte>>)
    requires Consecutive(cards)
    ensures forall j :: 0 <= j < |cards| ==> cards[j].rank == cards[0].rank - j
  {
    if |cards| >= 2 {
      var tail := cards[1..];
      assert forall i :: 0 <= i < |tail| ==> tail[i] == cards[i + 1];
      ConsecutiveOffset(tail);
      forall j | 0 <= j < |cards| ensures cards[j].rank == cards[0].rank - j {
        if j > 0 { assert cards[j] == tail[j - 1]; }
      }
    }
  }

  /** Which arms keep every group's rank and which keep only the first. */
  lemma ClassifyKickers2(straight: bool, flush: bool, gs: seq<Group>)
    ensures var c := Classify(straight, flush, gs);
      if c.handRank == Straight || c.handRank == StraightFlush then straight && c.kickers == Take(Select(gs, GroupRank), 1)
      else c.kickers == Select(gs, GroupRank)
  {
  }

  /** The ranks of groups are distinct, cover the cards, and follow the group order. */
  lemma GroupRanks(gs: seq<Group>, ranks: seq<Byte>)
    requires GroupsOfRanks(gs, ranks)
    ensures IsDistinct(Select(gs, GroupRank))
    ensures forall x :: x in Select(gs, GroupRank) <==> x in ranks
    ensures forall i, j :: 0 <= i < j < |gs| ==>
      CountOf(ranks, Select(gs, GroupRank)[i]) > CountOf(ranks, Select(gs, GroupRank)[j])
      || (CountOf(ranks, Select(gs, GroupRank)[i]) == CountOf(ranks, Select(gs, GroupRank)[j])
          && Select(gs, GroupRank)[i] > Select(gs, GroupRank)[j])
  {
    var ks := Select(gs, GroupRank);
    forall x ensures x in ks <==> x in ranks {
      if x in ranks {
        var i :| 0 <= i < |gs| && gs[i].rank == x;
        assert ks[i] == x;
      }
    }
  }

  /**
   * Outside the straight arms, the kickers are the distinct ranks of the
   * cards, ordered by multiplicity and then by rank, both descending.
   */
  lemma KickersAreRanks(hand: Hand<Byte>)
    requires Count(hand) == 5
    requires Evaluate(hand).handRank != Straight && Evaluate(hand).handRank != StraightFlush
    ensures var ks, ranks := Evaluate(hand).kickers, RanksOf(hand.cards);
      && IsDistinct(ks)
      && (forall x :: x in ks <==> x in ranks)
      && (forall i, j :: 0 <= i < j < |ks| ==>
            CountOf(ranks, ks[i]) > CountOf(ranks, ks[j])
            || (CountOf(ranks, ks[i]) == CountOf(ranks, ks[j]) && ks[i] > ks[j]))
  {
    var gs := SortedGroups(hand.cards);
    ClassifyKickers2(IsStraight(hand.cards), IsFlush(hand.cards), gs);
    SortedGroupsOfRanks(hand.cards);
    GroupRanks(gs, RanksOf(hand.cards));
  }

  /** When every rank occurs once, the first group holds the highest rank. */
  lemma SingletonGroupsTop(gs: seq<Group>, ranks: seq<Byte>, top: Byte)
    requires GroupsOfRanks(gs, ranks) && IsDistinct(ranks)
    requires top in ranks && forall x :: x in ranks ==> x <= top
    ensures gs != [] && gs[0].rank == top
  {
    var k :| 0 <= k < |gs| && gs[k].rank == top;
    assert gs[0].rank in ranks;
    CountOfDistinct(ranks, gs[0].rank);
    CountOfDistinct(ranks, top);
  }

  /** Consecutive cards have distinct ranks, the first being the highest. */
  lemma ConsecutiveRanks(cards: seq<Card<Byte>>)
    requires Consecutive(cards) && cards != []
    ensures IsDistinct(RanksOf(cards))
    ensures cards[0].rank in RanksOf(cards) && forall x :: x in RanksOf(cards) ==> x <= cards[0].rank
  {
    ConsecutiveOffset(cards);
    assert RanksOf(cards)[0] == cards[0].rank;
  }

  /** In the straight arms the single kicker is the top card. */
  lemma StraightKickerIsTop(hand: Hand<Byte>)
    requires Count(hand) == 5
    requires Evaluate(hand).handRank == Straight || Evaluate(hand).handRank == StraightFlush
    ensures Evaluate(hand).kickers == [hand.cards[0].rank]
  {
    var cards := hand.cards;
    var ranks := RanksOf(cards);
    var gs := SortedGroups(cards);
    ClassifyKickers2(IsStraight(cards), IsFlush(cards), gs);
    StraightIff(cards);
    ConsecutiveRanks(cards);
    SortedGroupsOfRanks(cards);
    SingletonGroupsTop(gs, ranks, cards[0].rank);
  }

  /**
   * A full house keeps one kicker per distinct rank: the rank of the three,
   * then the rank of the two (2,2,2,5,5 gives [2, 5], not five entries).
   */
  lemma FullHouseKickers(hand: Hand<Byte>)
    requires Count(hand) == 5 && Evaluate(hand).handRank == FullHouse
    ensures |Evaluate(hand).kickers| == 2
    ensures CountOf(RanksOf(hand.cards), Evaluate(hand).kickers[0]) == 3
    ensures CountOf(RanksOf(hand.cards), Evaluate(hand).kickers[1]) == 2
  {
    var ranks := RanksOf(hand.cards);
    var gs := SortedGroups(hand.cards);
    ClassifyKickers2(IsStraight(hand.cards), IsFlush(hand.cards), gs);
    ClassifyFullHouse(IsStraight(hand.cards), IsFlush(hand.cards), gs);
    SortedGroupsOfRanks(hand.cards);
    Profile(gs, ranks);
    assert |gs| == 2;
    assert gs[0].count == CountOf(ranks, gs[0].rank) && gs[1].count == CountOf(ranks, gs[1].rank);
  }

  lemma ClassifyFullHouse(straight: bool, flush: bool, gs: seq<Group>)
    requires Classify(straight, flush, gs).handRank == FullHouse
    ensures CountAt(gs, 0) == 3 && CountAt(gs, 1) == 2
  {
  }

  /**
   * Five suited cards with four of one rank, which only wildcards can
   * produce, reach the Flush arm before the FourOfAKind arm.
   */
  lemma SuitedQuadsAreFlush(hand: Hand<Byte>)
    requires Count(hand) == 5 && SameSuit(hand.cards) && HasMultiplicity(RanksOf(hand.cards), 4)
    ensures Evaluate(hand).handRank == Flush
  {
    var cards := hand.cards;
    var ranks := RanksOf(cards);
    var gs := SortedGroups(cards);
    EvaluateCategory(hand);
    SortedGroupsOfRanks(cards);
    Profile(gs, ranks);
    MultiplicityAt(gs, ranks, 4);
    MultiplicityAt(gs, ranks, 5);
    if Consecutive(cards) {
      ConsecutiveRanks(cards);
      var i :| 0 <= i < |ranks| && CountOf(ranks, ranks[i]) == 4;
      assert ranks[i] in ranks;
      CountOfDistinct(ranks, ranks[i]);
    }
  }

  //
  // Ordering
  //

  /**
   * `Kickers.Zip(other.Kickers)` compared pairwise: the first nonzero byte
   * comparison, or 0 when the shorter list runs out first.
   */
  function CompareKickers(a: seq<Byte>, b: seq<Byte>): int
  {
    if a == [] || b == [] then 0
    else if a[0] != b[0] then a[0] - b[0]
    else CompareKickers(a[1..], b[1..])
  }

  /** `CompareTo`: the categories first, then the kickers. */
  function Compare(a: HandStrength, b: HandStrength): int
  {
    if a.handRank != b.handRank then HandRanks.Ordinal(a.handRank) - HandRanks.Ordinal(b.handRank)
    else CompareKickers(a.kickers, b.kickers)
  }

  lemma {:induction false} CompareKickersAntisymmetric(a: seq<Byte>, b: seq<Byte>)
    ensures CompareKickers(a, b) == -CompareKickers(b, a)
  {
    if a != [] && b != [] && a[0] == b[0] {
      CompareKickersAntisymmetric(a[1..], b[1..]);
    }
  }

  /** Kicker lists of equal length compare 0 exactly when they are equal. */
  lemma {:induction false} CompareKickersZero(a: seq<Byte>, b: seq<Byte>)
    requires |a| == |b|
    ensures CompareKickers(a, b) == 0 <==> a == b
  {
    if a != [] && a[0] == b[0] {
      CompareKickersZero(a[1..], b[1..]);
      if a[1..] == b[1..] {
        assert a == [a[0]] + a[1..] && b == [b[0]] + b[1..];
      }
    }
  }

  /** A kicker list that is a prefix of another compares 0 with it. */
  lemma {:induction false} CompareKickersPrefix(a: seq<Byte>, b: seq<Byte>)
    ensures CompareKickers(a, a + b) == 0
  {
    if a != [] {
      assert (a + b)[0] == a[0] && (a + b)[1..] == a[1..] + b;
      CompareKickersPrefix(a[1..], b);
    }
  }

  lemma {:induction false} CompareKickersStrictTransitive(a: seq<Byte>, b: seq<Byte>, c: seq<Byte>)
    requires CompareKickers(a, b) > 0 && CompareKickers(b, c) > 0
    ensures CompareKickers(a, c) > 0
  {
    if a[0] == b[0] && b[0] == c[0] {
      CompareKickersStrictTransitive(a[1..], b[1..], c[1..]);
    }
  }

  lemma CompareAntisymmetric(a: HandStrength, b: HandStrength)
    ensures Compare(a, b) == -Compare(b, a)
  {
    CompareKickersAntisymmetric(a.kickers, b.kickers);
  }

  lemma CompareReflexive(a: HandStrength)
    ensures Compare(a, a) == 0
  {
    CompareKickersAntisymmetric(a.kickers, a.kickers);
  }

  /** Strictly-greater is transitive for all strengths, whatever their kicker lengths. */
  lemma CompareStrictTransitive(a: HandStrength, b: HandStrength, c: HandStrength)
    requires Compare(a, b) > 0 && Compare(b, c) > 0
    ensures Compare(a, c) > 0
  {
    if a.handRank == b.handRank && b.handRank == c.handRank {
      CompareKickersStrictTransitive(a.kickers, b.kickers, c.kickers);
    }
  }

  /** Kicker lists within each category have one length. */
  ghost predicate UniformLengths(a: HandStrength, b: HandStrength)
  {
    a.handRank == b.handRank ==> |a.kickers| == |b.kickers|
  }

  /** At-least is transitive on strengths whose same-category kicker lists have equal length. */
  lemma CompareTransitive(a: HandStrength, b: HandStrength, c: HandStrength)
    requires UniformLengths(a, b) && UniformLengths(b, c) && UniformLengths(a, c)
    requires Compare(a, b) >= 0 && Compare(b, c) >= 0
    ensures Compare(a, c) >= 0
  {
    if Compare(a, b) > 0 && Compare(b, c) > 0 {
      CompareStrictTransitive(a, b, c);
    } else if Compare(a, b) == 0 && a.handRank == b.handRank {
      CompareKickersZero(a.kickers, b.kickers);
    } else if Compare(b, c) == 0 && b.handRank == c.handRank {
      CompareKickersZero(b.kickers, c.kickers);
    }
  }

  /** Two evaluated strengths outside Flush always have uniform lengths. */
  lemma EvaluatedUniform(h: Hand<Byte>, g: Hand<Byte>)
    requires Count(h) == 5 && Count(g) == 5
    requires Evaluate(h).handRank != Flush
    ensures UniformLengths(Evaluate(h), Evaluate(g))
  {
    KickerLengths(h);
    KickerLengths(g);
  }

  /**
   * Among flushes, whose kicker lists can be shorter than five when
   * wildcards repeat a rank, at-least is not transitive.
   */
  lemma FlushNotTransitive()
    ensures var a, b, c := HandStrength(Flush, [13, 12, 9, 5, 3]), HandStrength(Flush, [13, 12, 9, 5]), HandStrength(Flush, [13, 12, 9, 5, 4]);
      Compare(a, b) == 0 && Compare(b, c) == 0 && Compare(a, c) < 0
  {
    FlushPrefix(3);
    FlushPrefix(4);
    FlushLastKicker();
  }

  /** A fifth kicker after 13, 12, 9, 5 ties with the four alone, from either side. */
  lemma FlushPrefix(last: Byte)
    ensures CompareKickers([13, 12, 9, 5], [13, 12, 9, 5, last]) == 0
    ensures CompareKickers([13, 12, 9, 5, last], [13, 12, 9, 5]) == 0
  {
    CompareKickersPrefix([13, 12, 9, 5], [last]);
    assert [13, 12, 9, 5] + [last] == [13, 12, 9, 5, last];
    CompareKickersAntisymmetric([13, 12, 9, 5], [13, 12, 9, 5, last]);
  }

  lemma FlushLastKicker()
    ensures CompareKickers([13, 12, 9, 5, 3], [13, 12, 9, 5, 4]) < 0
  {
    var a: seq<Byte> := [13, 12, 9, 5, 3];
    var c: seq<Byte> := [13, 12, 9, 5, 4];
    assert a[1..][1..][1..][1..] == [3] && c[1..][1..][1..][1..] == [4];
  }

  //
  // Enumerable.Max
  //

  /** The left fold of `Max`: a later element replaces the best so far only when it compares greater. */
  function MaxIndexFrom(ss: seq<HandStrength>, best: nat, i: nat): (k: nat)
    requires best < i <= |ss|
    ensures k < |ss|
    decreases |ss| - i
  {
    if i == |ss| then best
    else if Compare(ss[i], ss[best]) > 0 then MaxIndexFrom(ss, i, i + 1)
    else MaxIndexFrom(ss, best, i + 1)
  }

  /** The position of the element `Max` returns; `Max` of an empty sequence throws. */
  function MaxIndex(ss: seq<HandStrength>): (k: nat)
    requires ss != []
    ensures k < |ss|
  {
    MaxIndexFrom(ss, 0, 1)
  }

  function MaxStrength(ss: seq<HandStrength>): (m: HandStrength)
    requires ss != []
  {
    ss[MaxIndex(ss)]
  }

  lemma {:induction false} MaxIndexFromIsMaximal(ss: seq<HandStrength>, best: nat, i: nat)
    requires best < i <= |ss|
    requires forall j :: 0 <= j < i ==> Compare(ss[j], ss[best]) <= 0
    ensures forall j :: 0 <= j < |ss| ==> Compare(ss[j], ss[MaxIndexFrom(ss, best, i)]) <= 0
    decreases |ss| - i
  {
    if i < |ss| {
      if Compare(ss[i], ss[best]) > 0 {
        forall j | 0 <= j < i + 1 ensures Compare(ss[j], ss[i]) <= 0 {
          if j == i {
            CompareReflexive(ss[i]);
          } else if Compare(ss[j], ss[i]) > 0 {
            CompareStrictTransitive(ss[j], ss[i], ss[best]);
          }
        }
        MaxIndexFromIsMaximal(ss, i, i + 1);
      } else {
        MaxIndexFromIsMaximal(ss, best, i + 1);
      }
    }
  }

  /**
   * The element `Max` returns is one of the inputs, and no input compares
   * greater than it; no transitivity beyond the strict one is needed.
   */
  lemma MaxIsMaximal(ss: seq<HandStrength>)
    requires ss != []
    ensures MaxStrength(ss) in ss
    ensures forall j :: 0 <= j < |ss| ==> Compare(ss[j], MaxStrength(ss)) <= 0
  {
    CompareReflexive(ss[0]);
    MaxIndexFromIsMaximal(ss, 0, 1);
  }
}
