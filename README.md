# Poker: a verified model

This project models the core of a C# poker library in Dafny:

- the LINQ-style generators it builds its searches from: cross products, subsets, permutations, k-combinations and k-arrangements;
- the five-card evaluator: straight and flush tests, grouping by rank, the category switch and the kickers;
- the order on hand strengths;
- hands with wildcards: Jokers, the dual Ace and suit-less cards;
- the card parser;
- the odds calculator, which enumerates every completion of the community cards and shares out one point per completion;
- the shuffled deck.

Each C# file becomes one or two Dafny modules:

| Dafny file | module | models |
|---|---|---|
| `ranks.dfy`, `suits.dfy`, `hand_rank.dfy` | `Ranks`, `Suits`, `HandRanks` | the byte-valued enums and their symbols |
| `cards.dfy` | `Cards` | `Card<TRank>`: value equality, rank-only `CompareTo`, `Parse`, and the 52-card standard deck |
| `linq.dfy` | `Linq` | the LINQ operators the code relies on: `Select`, `SelectMany`, `Where`, `Distinct`/`Except`/`Union`, and the stable `OrderByDescending` |
| `combinatorics.dfy` | `Combinatorics` | `LinqExtensions` |
| `sorted_hand.dfy` | `SortedHands` | `Hand<TRank>`, whose constructor sorts by rank |
| `hand_strength.dfy` | `HandStrengths` | `HandStrength`, `CompareTo`, and `Enumerable.Max` |
| `hand.dfy` | `Hands` | the wildcard search of `Hand`, `Hand.Equals` and `Hand.Parse` |
| `odds.dfy` | `Odds` | `OddsCalculator` |
| `deck.dfy` | `Decks` | `Deck`, a class over its queue |

Pure C# code becomes datatypes and functions. Two parts are imperative:

- `OddsCalculator.Determine` is a method. Its loop over the completions credits the winners into a `map`, and its `ensures` ties the result to the function `Odds.OddsOf`. The lemmas about that function state what the odds are.
- `Deck` is a class whose `cards` field is the queue that `Draw` removes from.

The following are parameters of the model rather than part of it:

- the `System.Random` numbers that drive the shuffle (`random(i)` is the i-th `Random.Next()`);
- the order `Comparer<TRank>.Default` puts on a card's rank type (an ordinal function `ord`).

Behaviour of the code that a reader may not expect:

- A full house such as 2,2,2,5,5 has the kickers `[2, 5]`, one per distinct rank, not `[2, 2, 2, 5, 5]`.
- Card comparison looks at ranks only; suits are never a tie-break.
- Equal-rank cards keep their input order in a hand, because `OrderByDescending` is stable.
- Among evaluated strengths, kicker lists of equal category differ in length only for flushes (`HandStrengths.EvaluatedUniform`). The strength order is transitive on evaluated strengths of the other categories (`HandStrengths.CompareTransitive`), but not among such flushes (`HandStrengths.FlushNotTransitive`). Strengths built directly from a category and a kicker list can break transitivity in any category.
- The odds calculator as written never splits a tie (see Findings). `Odds.OddsAsWritten` models that code. `Odds.Determine` and its specification `Odds.OddsOf` credit the corrected winners instead, so tied players share the point.

## Model

| member | source | states |
|---|---|---|
| Ranks.Ordinal | Poker/Rank.cs:5-22 | a rank's byte value lies in 0..14 and is never 1 |
| Ranks.OrdinalsIncrease | Poker/Rank.cs:7-21 | Two..Ace have the values 2..14, strictly increasing, the Joker 0, and no rank has 1 |
| Ranks.OrdinalInjective | Poker/Rank.cs:5-22 | two ranks with the same byte value are the same rank, and conversely |
| Ranks.NamedRanksComplete | Poker/Rank.cs:7-21 | the 13 named ranks are exactly the ranks other than the Joker |
| Ranks.Digit | Poker/Rank.cs:28 | a value below 10 renders as one decimal digit |
| Ranks.Symbol | Poker/Rank.cs:26-30 | every rank symbol is one character |
| Ranks.DigitSymbols | Poker/Rank.cs:28 | Two..Nine have the symbols "2".."9" |
| Ranks.LetterSymbols | Poker/Rank.cs:29 | Ten, Jack, Queen, King, Ace have the symbols "T", "J", "Q", "K", "A" |
| Ranks.JokerSymbol | Poker/Rank.cs:26-28 | the Joker's value 0 falls in the digit arm, so its symbol is "0" |
| Ranks.SymbolInjective | Poker/Rank.cs:26-30 | two ranks have the same symbol exactly when they are the same rank, the Joker included |
| Suits.Ordinal | Poker/Suit.cs:3-10 | a suit's byte value lies in 0..4 and is 0 exactly for None |
| Suits.Ordinals | Poker/Suit.cs:5-9 | None = 0, Clubs = 1, Diamonds = 2, Hearts = 3, Spades = 4 |
| Suits.ConcreteSuitsComplete | Poker/Suit.cs:5-9 | the four concrete suits are exactly the suits other than None |
| Suits.Symbol | Poker/Suit.cs:14-21 | every suit symbol is one character |
| Suits.SuitSymbols | Poker/Suit.cs:16-20 | Clubs, Diamonds, Hearts, Spades have the symbols U+2663, U+2662, U+2664, U+2660; None has "?" |
| Suits.SymbolInjective | Poker/Suit.cs:16-20 | two suits have the same symbol exactly when they are the same suit |
| HandRanks.Ordinal | Poker/HandRank.cs:3-16 | a category's byte value lies in 0..10 |
| HandRanks.OrdinalIsPosition | Poker/HandRank.cs:5-15 | every category's value is its position in the declaration, None lowest and FiveOfAKind highest |
| HandRanks.OrdinalInjective | Poker/HandRank.cs:5-15 | two categories with the same value are the same category, and conversely |
| Cards.EqualsIsEquality | Poker/Card.cs:14 | `Equals` holds exactly when rank and suit are both equal |
| Cards.CompareToIsRankOrder | Poker/Card.cs:16 | `CompareTo` is positive, zero or negative as the rank order says, and is antisymmetric |
| Cards.SameRankOtherSuit | Poker/Card.cs:14-16 | cards of one rank and different suits compare 0, yet are not equal |
| Cards.Trim | Poker/Card.cs:26 | the trimmed string neither starts nor ends with white space |
| Cards.TrimStart | Poker/Card.cs:26 | the result is a suffix of the input that does not start with white space |
| Cards.TrimEnd | Poker/Card.cs:26 | the result is a prefix of the input that does not end with white space |
| Cards.TrimStartPadding | Poker/Card.cs:26 | leading white space in front of a token is removed, and nothing else |
| Cards.TrimEndPadding | Poker/Card.cs:26 | trailing white space after a token is removed, and nothing else |
| Cards.ToUpperKeepsWhiteSpace | Poker/Card.cs:26 | upper-casing a character keeps it white space or not, keeps it inside or outside the BMP, and is idempotent |
| Cards.UpperIdempotent | Poker/Card.cs:26 | upper-casing twice is upper-casing once |
| Cards.TrimStartUpper | Poker/Card.cs:26 | trimming the front and upper-casing commute |
| Cards.TrimEndUpper | Poker/Card.cs:26 | trimming the end and upper-casing commute |
| Cards.NormalizeUpper | Poker/Card.cs:26 | the token Parse examines is the same for an input and its upper case |
| Cards.ParseIgnoresCase | Poker/Card.cs:26 | upper-casing the input first does not change what Parse returns, so "as" parses like "AS" |
| Cards.ParseIgnoresSpace | Poker/Card.cs:26 | white space around a token does not change what Parse returns, so " AS " parses like "AS" |
| Cards.NormalizeSingle | Poker/Card.cs:26 | a single non-space character is normalised to its upper case |
| Cards.NormalizePair | Poker/Card.cs:26 | two non-space characters are normalised to their upper cases |
| Cards.NormalizeFixed | Poker/Card.cs:26 | a token without surrounding white space and already upper case is left as it is |
| Cards.Utf16Length | Poker/Card.cs:28 | `Length` counts UTF-16 units, at least one per character |
| Cards.Parse | Poker/Card.cs:24-62 | no contract of its own; `Cards.ParseIgnoresCase`, `Cards.ParseIgnoresSpace`, `Cards.ParseSymbols` and `Cards.ParseResults` state what it returns |
| Cards.ParseToken | Poker/Card.cs:28-61 | no contract of its own; `Cards.ParseSingle`, `Cards.ParsePair`, `Cards.ParseUnexpectedLength` and `Cards.RankAndSuitOutcomes` state its arms |
| Cards.ParseSingle | Poker/Card.cs:28-61 | a one-character token is the Joker when it is "J" and otherwise has an unexpected length |
| Cards.ParseJoker | Poker/Card.cs:26-30 | "J" and "j" both parse as the Joker with suit None |
| Cards.ParsePair | Poker/Card.cs:28-31 | a two-character BMP token goes to the rank and suit tests |
| Cards.ParseTwoCharacters | Poker/Card.cs:26-60 | a two-character input is the rank of its first upper-cased character and the suit of its second |
| Cards.RankAndSuitOutcomes | Poker/Card.cs:31-60 | the rank is tested first: an unknown rank symbol fails with a rank error, whatever the suit; a known rank with an unknown suit symbol fails with a suit error; both known give that card |
| Cards.ParseUnexpectedLength | Poker/Card.cs:28-61 | a normalised token whose length is not 1 or 2, or a length-1 token that is not "J", is rejected as too long |
| Cards.ParseAstral | Poker/Card.cs:28-47 | one character outside the BMP has length 2 and fails the rank test |
| Cards.ParsePlainPair | Poker/Card.cs:24-62 | a pair of plain symbol characters goes straight to the rank and suit tests |
| Cards.RankSymbolRoundTrip | Poker/Card.cs:32-46 | the rank test maps each named rank's symbol back to that rank |
| Cards.SuitSymbolRoundTrip | Poker/Card.cs:55-58 | the suit test maps each concrete suit's symbol back to that suit |
| Cards.SuitLetterRoundTrip | Poker/Card.cs:51-54 | the suit test maps the letters C, D, H, S back to their suits |
| Cards.ParseSymbols | Poker/Card.cs:24-62 | parsing a named rank's symbol followed by a concrete suit's symbol gives back that card |
| Cards.ParseLetters | Poker/Card.cs:24-62 | parsing a named rank's symbol followed by the suit's letter gives back that card |
| Cards.ParseResults | Poker/Card.cs:28-61 | a parsed card is the Joker exactly when its suit is None |
| Cards.StandardCards | Poker/OddsCalculator.cs:59-68 | the standard deck has 52 cards |
| Cards.StandardCardsDistinct | Poker/OddsCalculator.cs:59-68 | the 52 standard cards are pairwise distinct |
| Cards.StandardCardsMembership | Poker/OddsCalculator.cs:61-65 | a card is standard exactly when its rank is not the Joker and its suit is not None |
| Cards.StandardCardAt | Poker/OddsCalculator.cs:61-65 | card 4i + j is the i-th named rank in the j-th suit, rank-major |
| Linq.Where | Poker/Hand.cs:68 | `Where` keeps exactly the elements that satisfy the predicate |
| Linq.SelectConcat | Poker/Hand.cs:59-61 | `Select` over a concatenation is the concatenation of the two mapped parts |
| Linq.SelectPermutation | Poker/HandStrength.cs:24 | mapping two rearrangements of one sequence gives rearrangements of one another |
| Linq.FlattenMembership | Poker/Hand.cs:66 | an element of `SelectMany` comes from one of the inner sequences, and each of theirs is one |
| Linq.FlattenConcat | Poker/Hand.cs:66 | `SelectMany` over a concatenation is the concatenation of the two |
| Linq.CountOf | Poker/HandStrength.cs:28 | a group's count is at most the length and is positive exactly for members |
| Linq.CountOfConcat | Poker/HandStrength.cs:28 | counts add up over a concatenation |
| Linq.CountOfDistinct | Poker/HandStrength.cs:28 | a member of a duplicate-free sequence occurs once |
| Linq.DistinctExcept | Poker/OddsCalculator.cs:25 | `Except`, `Distinct` and `Union` give a duplicate-free sequence holding exactly the elements not excluded, and no longer than the input |
| Linq.FirstIndex | Poker/OddsCalculator.cs:25 | the position returned holds the element, and no earlier position does |
| Linq.DistinctExceptOrder | Poker/Deck.cs:45-47 | the kept elements come in the order of their first occurrences, starting with the input's first element unless it is excluded |
| Linq.DistinctExceptConcat | Poker/Deck.cs:45-47 | `Union` of a concatenation is the first part's distinct elements followed by the new elements of the second part |
| Linq.DistinctExceptOfDistinct | Poker/OddsCalculator.cs:25 | removing absent cards from a duplicate-free sequence changes nothing |
| Linq.DistinctCardinality | Poker/HandStrength.cs:24 | a duplicate-free sequence has as many distinct elements as its length |
| Linq.PermutationDistinct | Poker/Deck.cs:48 | a reordering of a duplicate-free sequence is duplicate-free |
| Linq.InsertDescending | Poker/Hand.cs:12 | one insertion step adds exactly the new element |
| Linq.InsertDescendingSorted | Poker/Hand.cs:12 | inserting into a sorted sequence keeps it sorted |
| Linq.InsertDescendingWithKey | Poker/Hand.cs:12 | an inserted element comes before every element that shares its key |
| Linq.SortDescending | Poker/Hand.cs:12 | `OrderByDescending` returns a permutation of its input sorted by non-increasing key |
| Linq.SortDescendingStable | Poker/Hand.cs:12 | the elements that share a key keep their input order |
| Linq.SortDescendingSum | Poker/HandStrength.cs:29-30 | sorting does not change the sum of a quantity over the elements |
| Combinatorics.PrependEach | Poker/LinqExtensions.cs:20 | prepending to every tail keeps their number and puts the head in front of each |
| Combinatorics.PrependEachMembership | Poker/LinqExtensions.cs:20 | a prepended sequence is the head followed by one of the tails |
| Combinatorics.PrependEachOfCount | Poker/LinqExtensions.cs:16-22 | each element of the first set combines with each tail: \|elements\| × \|tails\| results |
| Combinatorics.PrependEachOfMembership | Poker/LinqExtensions.cs:16-22 | a result is an element of the first set followed by a tail |
| Combinatorics.CrossProduct | Poker/LinqExtensions.cs:8-23 | no contract of its own; `Combinatorics.CrossProductCount` and `Combinatorics.CrossProductMembership` state it |
| Combinatorics.CrossProductCount | Poker/LinqExtensions.cs:8-22 | `CrossProduct` yields the product of the set sizes, and one empty sequence for no sets |
| Combinatorics.CrossProductMembership | Poker/LinqExtensions.cs:8-22 | a result has one element per set, and element i comes from set i; every such sequence is a result |
| Combinatorics.CrossProductOfTwo | Poker.Tests/LinqExtensionsTests.cs:24-25 | {1,2} × {3,4,5} gives the six pairs in order |
| Combinatorics.Subsets | Poker/LinqExtensions.cs:25-33 | no contract of its own; `Combinatorics.SubsetsCount` and `Combinatorics.SubsetsMembership` state it |
| Combinatorics.SubsetsCount | Poker/LinqExtensions.cs:25-33 | an n-element sequence has 2^n subsets |
| Combinatorics.SubsetsMembership | Poker/LinqExtensions.cs:25-33 | the subsets are exactly the order-preserving subsequences |
| Combinatorics.SubsetsContainEmptyAndWhole | Poker/LinqExtensions.cs:25-33 | the empty sequence and the whole input are among the subsets |
| Combinatorics.SubsequenceMultiset | Poker/LinqExtensions.cs:25-33 | a subsequence is no longer than the input and takes no element more often than the input has it |
| Combinatorics.SubsetsOfTwo | Poker.Tests/LinqExtensionsTests.cs:12-13 | the subsets of [1, 2] are [], [2], [1], [1, 2], in that order |
| Combinatorics.RemoveAtMultiset | Poker/LinqExtensions.cs:39 | removing position i removes one copy of that element |
| Combinatorics.PermutationsCount | Poker/LinqExtensions.cs:37-39 | the inner `permutate` yields \|remainder\|! results |
| Combinatorics.PermutationsFromCount | Poker/LinqExtensions.cs:39 | the choices from position i on yield (n − i) × (n − 1)! results |
| Combinatorics.PermutationsFromMembership | Poker/LinqExtensions.cs:39 | a result comes from choosing one remaining element j ≥ i next |
| Combinatorics.PermutationsSound | Poker/LinqExtensions.cs:37-39 | every result is the prefix followed by a rearrangement of the remainder |
| Combinatorics.PermutationsComplete | Poker/LinqExtensions.cs:37-39 | every prefix-plus-rearrangement is a result |
| Combinatorics.Permutate | Poker/LinqExtensions.cs:35-42 | no contract of its own; `Combinatorics.PermutateCount` and `Combinatorics.PermutateMembership` state it |
| Combinatorics.PermutateCount | Poker/LinqExtensions.cs:35-42 | `Permutate` yields n! results, one for the empty input |
| Combinatorics.PermutateMembership | Poker/LinqExtensions.cs:35-42 | the results are exactly the rearrangements of the input |
| Combinatorics.CombinationsFromShift | Poker/LinqExtensions.cs:48 | choosing first elements from position i ≥ 1 on is the same as from the tail |
| Combinatorics.CombinationsPascal | Poker/LinqExtensions.cs:44-49 | the combinations that take the head, followed by those from the tail |
| Combinatorics.Combinations | Poker/LinqExtensions.cs:44-49 | no contract of its own; `Combinatorics.CombinationsCount` and `Combinatorics.CombinationsMembership` state it |
| Combinatorics.CombinationsCount | Poker/LinqExtensions.cs:44-49 | `Combinations(k)` yields C(n, k) results for k ≥ 0, one for k = 0, none for negative k |
| Combinatorics.CombinationsAbove | Poker/LinqExtensions.cs:44-49 | there is no combination of more elements than the input has |
| Combinatorics.CombinationsMembership | Poker/LinqExtensions.cs:44-49 | the results are exactly the order-preserving subsequences of length k |
| Combinatorics.CombinationsTwoOfThree | Poker.Tests/LinqExtensionsTests.cs:46-47 | the 2-combinations of [1, 2, 3] are [1, 2], [1, 3], [2, 3] |
| Combinatorics.PermutateEachCount | Poker/LinqExtensions.cs:52 | permuting each of m k-element combinations yields m × k! results |
| Combinatorics.PermutateEachMembership | Poker/LinqExtensions.cs:52 | a result is a rearrangement of one of the combinations |
| Combinatorics.Arrangements | Poker/LinqExtensions.cs:51-52 | no contract of its own; `Combinatorics.ArrangementsCount` and `Combinatorics.ArrangementsMembership` state it |
| Combinatorics.ArrangementsCount | Poker/LinqExtensions.cs:51-52 | `Arrangements(k)` yields C(n, k) × k! results |
| Combinatorics.ArrangementsMembership | Poker/LinqExtensions.cs:51-52 | the results are exactly the rearrangements of the length-k subsequences |
| SortedHands.NewHand | Poker/Hand.cs:12 | the stored cards are a permutation of the input, sorted by non-increasing rank |
| SortedHands.NewHandCount | Poker/Hand.cs:12-16 | `Count` is the number of input cards, and the hand holds exactly the input's cards |
| SortedHands.NewHandStable | Poker/Hand.cs:12 | cards of equal rank keep their input order |
| SortedHands.InputOrderMatters | Poker/Hand.cs:12 | A♠ A♥ and A♥ A♠ are stored in their input orders, so they differ |
| HandStrengths.GroupsFor | Poker/HandStrength.cs:26-28 | each rank key becomes a group holding its count among the cards |
| HandStrengths.GroupsForSum | Poker/HandStrength.cs:26-28 | the group counts of all distinct ranks add up to the number of cards |
| HandStrengths.GroupsOfDistinct | Poker/HandStrength.cs:26-28 | `GroupBy` gives one group per distinct rank, holding that rank's count |
| HandStrengths.SortedGroups | Poker/HandStrength.cs:26-31 | no contract of its own; `HandStrengths.SortedGroupsMembers`, `HandStrengths.SortedGroupsOrder` and `HandStrengths.SortedGroupsSum` state it |
| HandStrengths.SortedGroupsMembers | Poker/HandStrength.cs:26-31 | the ordered groups are exactly the groups of the hand, each once |
| HandStrengths.SortedGroupsOrder | Poker/HandStrength.cs:29-30 | the groups are in decreasing count, then decreasing rank |
| HandStrengths.SortedGroupsSum | Poker/HandStrength.cs:26-31 | the group sizes add up to the number of cards |
| HandStrengths.SortedGroupsOfRanks | Poker/HandStrength.cs:26-31 | the ordered groups describe the cards' ranks |
| HandStrengths.Profile | Poker/HandStrength.cs:33-40 | for five cards: one to five groups, the counts First..Fifth are non-increasing, a missing one is 0, and they add up to 5 |
| HandStrengths.Take | Poker/HandStrength.cs:47-48 | `Take(n)` keeps min(n, length) elements |
| HandStrengths.Evaluate | Poker/HandStrength.cs:17-21 | a hand of other than five cards is None with no kickers |
| HandStrengths.IsStraight | Poker/HandStrength.cs:23 | no contract of its own; `HandStrengths.StraightIff` states it |
| HandStrengths.IsFlush | Poker/HandStrength.cs:24 | no contract of its own; `HandStrengths.FlushIff` states it |
| HandStrengths.StraightIff | Poker/HandStrength.cs:23 | a straight is exactly a run of adjacent ranks that differ by one |
| HandStrengths.FlushIff | Poker/HandStrength.cs:24 | a flush is exactly a hand whose suits are all equal |
| HandStrengths.MultiplicityIsGroupSize | Poker/HandStrength.cs:26-40 | a rank occurs n times exactly when some group has size n |
| HandStrengths.MultiplicityAt | Poker/HandStrength.cs:33-40 | for five cards, a rank occurs n times exactly when one of First..Fifth is n |
| HandStrengths.TwoPairsAreGroups | Poker/HandStrength.cs:53 | two different ranks occur twice exactly when First and Second are both 2 |
| HandStrengths.EvaluateCategory | Poker/HandStrength.cs:44-56 | the category follows the arm order: five of a kind; then straight flush, straight, flush; then four, full house, three, two pair, pair; else high card |
| HandStrengths.SuitedQuadsAreFlush | Poker/HandStrength.cs:49-50 | a same-suit four of a kind, possible only with wildcards, is classified as Flush |
| HandStrengths.Classify | Poker/HandStrength.cs:44-56 | no contract of its own; `HandStrengths.EvaluateCategory`, `HandStrengths.ClassifyKickers` and `HandStrengths.ClassifyKickers2` state its category and kickers |
| HandStrengths.ClassifyKickers | Poker/HandStrength.cs:44-56 | a five-card profile gets a category other than None, with the kicker count of that category; a flush has 2..5 kickers |
| HandStrengths.KickerLengths | Poker/HandStrength.cs:42-55 | five cards get a category other than None; except for flushes, the kicker count is 1 for five of a kind and straights, 2 for four of a kind and full house, 3 for three of a kind and two pair, 4 for a pair, 5 for high card |
| HandStrengths.ClassifyKickers2 | Poker/HandStrength.cs:42-55 | straights keep the first group rank only; every other category keeps all group ranks |
| HandStrengths.GroupRanks | Poker/HandStrength.cs:42 | the group ranks are the distinct ranks of the hand, by decreasing count and then decreasing rank |
| HandStrengths.KickersAreRanks | Poker/HandStrength.cs:42-55 | outside straights, the kickers are the distinct ranks, by decreasing count and then decreasing rank |
| HandStrengths.StraightKickerIsTop | Poker/HandStrength.cs:47-48 | a straight's only kicker is its top card |
| HandStrengths.FullHouseKickers | Poker/HandStrength.cs:51 | a full house has two kickers: the rank of the three and the rank of the pair |
| HandStrengths.CompareKickers | Poker/HandStrength.cs:61 | no contract of its own; `HandStrengths.CompareKickersAntisymmetric`, `HandStrengths.CompareKickersZero`, `HandStrengths.CompareKickersPrefix` and `HandStrengths.CompareKickersStrictTransitive` state it |
| HandStrengths.CompareKickersAntisymmetric | Poker/HandStrength.cs:61 | comparing kicker lists the other way round negates the result |
| HandStrengths.CompareKickersZero | Poker/HandStrength.cs:61 | equal-length kicker lists compare 0 exactly when they are equal |
| HandStrengths.CompareKickersPrefix | Poker/HandStrength.cs:61 | a kicker list compares 0 with any extension of it, because `Zip` stops at the shorter list |
| HandStrengths.CompareKickersStrictTransitive | Poker/HandStrength.cs:61 | "greater" on kicker lists is transitive |
| HandStrengths.Compare | Poker/HandStrength.cs:59-63 | no contract of its own; `HandStrengths.CompareAntisymmetric`, `HandStrengths.CompareReflexive`, `HandStrengths.CompareStrictTransitive` and `HandStrengths.CompareTransitive` state it |
| HandStrengths.CompareAntisymmetric | Poker/HandStrength.cs:59-63 | `a.CompareTo(b)` is minus `b.CompareTo(a)` |
| HandStrengths.CompareReflexive | Poker/HandStrength.cs:59-63 | a strength compares 0 with itself |
| HandStrengths.CompareStrictTransitive | Poker/HandStrength.cs:59-63 | "greater" on strengths is transitive |
| HandStrengths.CompareTransitive | Poker/HandStrength.cs:59-63 | "at least" is transitive on strengths whose same-category kicker lists have equal lengths |
| HandStrengths.EvaluatedUniform | Poker/HandStrength.cs:42-55 | two evaluated five-card hands, the first not a flush, have equal-length kickers when their categories agree |
| HandStrengths.FlushNotTransitive | Poker/HandStrength.cs:59-63 | three flushes whose kicker lists have lengths 5, 4, 5 are "at least" each other in turn, yet the first is below the third |
| HandStrengths.MaxIndexFromIsMaximal | Poker/Hand.cs:62 | the fold of `Max` ends on an element nothing compares above |
| HandStrengths.MaxIsMaximal | Poker/OddsCalculator.cs:36 | `Max` returns an element of the sequence, and no element compares greater than it |
| Hands.CandidateRanksMembership | Poker/Hand.cs:33-38 | a Joker stands for 1..14, an Ace for 1 or 14, any other rank for its own value |
| Hands.CandidateSuitsMembership | Poker/Hand.cs:40-44 | suit None stands for the four concrete suits, any other suit for itself |
| Hands.PairsMembership | Poker/Hand.cs:46-52 | the nested loops yield exactly the pairs of a candidate rank and a candidate suit |
| Hands.PairsCount | Poker/Hand.cs:46-52 | they yield \|ranks\| × \|suits\| cards |
| Hands.Interpretations | Poker/Hand.cs:31-53 | no contract of its own; `Hands.InterpretationsMembership` and `Hands.InterpretationsCount` state it |
| Hands.InterpretationsMembership | Poker/Hand.cs:31-53 | the interpretations of a card are exactly its candidate ranks with its candidate suits |
| Hands.InterpretationsCount | Poker/Hand.cs:31-53 | a card has 14, 2 or 1 candidate ranks, times 4 or 1 candidate suits |
| Hands.Scenarios | Poker/Hand.cs:58-60 | no contract of its own; `Hands.ScenarioExists` and `Hands.ScenarioShape` state it |
| Hands.ScenarioExists | Poker/Hand.cs:59-60 | every hand has at least one scenario |
| Hands.ScenarioShape | Poker/Hand.cs:58-60 | the scenarios are exactly the choices of one interpretation per card, in card order |
| Hands.FiveCardSubsetsMembership | Poker/Hand.cs:63-68 | the candidates of a big hand are exactly the five-card subsequences of its scenarios |
| Hands.FiveCardSubsetExists | Poker/Hand.cs:63-68 | a hand of more than five cards has a five-card candidate |
| Hands.BestOf | Poker/Hand.cs:61-62 | the maximum strength is attained by a candidate, and no candidate is stronger |
| Hands.BestEvaluated | Poker/Hand.cs:61-62 | the best of five-card candidates has a category other than None |
| Hands.Strength | Poker/Hand.cs:55-71 | no contract of its own; `Hands.StrengthNone`, `Hands.StrengthOfFive` and `Hands.StrengthOfMore` state it |
| Hands.StrengthNone | Poker/Hand.cs:55-71 | a hand's strength is None exactly when it has fewer than five cards |
| Hands.StrengthOfFive | Poker/Hand.cs:58-62 | a five-card hand's strength is the maximum over its scenarios: one attains it and none beats it |
| Hands.BestOfSubsets | Poker/Hand.cs:63-70 | the maximum over the five-card subsets of the scenarios is attained and unbeaten |
| Hands.StrengthOfMore | Poker/Hand.cs:63-70 | a bigger hand's strength is that of some five-card subset of some scenario, and no such subset is stronger |
| Hands.FixedScenario | Poker/Hand.cs:33-60 | cards without Joker, Ace or suit None have exactly one scenario: themselves |
| Hands.FixedStrength | Poker/Hand.cs:55-62 | such a five-card hand's strength is the evaluation of its own cards |
| Hands.HandEqualsIff | Poker/Hand.cs:80 | two hands are equal exactly when their sorted cards are equal element by element |
| Hands.EqualityOrderSensitive | Poker/Hand.cs:80 | hands built from A♠ A♥ and from A♥ A♠ are not equal |
| Hands.SplitOnSpaces | Poker/Hand.cs:87 | splitting on ' ' without empty entries gives non-empty tokens without spaces |
| Hands.SplitJoin | Poker/Hand.cs:87 | splitting tokens joined by single spaces gives back the tokens |
| Hands.SplitSeparator | Poker/Hand.cs:87 | a space splits the text on either side of it on its own, so leading, trailing and repeated spaces add no empty token |
| Hands.SplitBlank | Poker/Hand.cs:87 | a string of spaces only, or the empty string, gives no tokens |
| Hands.SplitPadded | Poker/Hand.cs:87 | "  AS  KD " splits into "AS" and "KD" |
| Hands.ParseCards | Poker/Hand.cs:86-88 | on success, there is one card per token, each the parse of its token |
| Hands.ParseCardsFirstError | Poker/Hand.cs:86-88 | parsing fails with the error of the first token that does not parse |
| Hands.ParseCardsOfParsed | Poker/Hand.cs:86-88 | when every token parses, the result is the parsed cards in order |
| Hands.ParseHandOfSymbols | Poker/Hand.cs:86-88 | parsing the space-joined symbols of standard cards gives the hand of those cards |
| Odds.StrengthsOf | Poker/OddsCalculator.cs:32-36 | each player's strength is that of their hole cards, the drawn cards and the completion as one hand |
| Odds.KeepMembers | Poker/OddsCalculator.cs:38 | the kept players are exactly those whose strength equals the given one |
| Odds.KeepDistinct | Poker/OddsCalculator.cs:38 | distinct players give distinct winners |
| Odds.WinnersFor | Poker/OddsCalculator.cs:36-38 | no contract of its own; `Odds.WinnersProperties` states it; it is the corrected winner set |
| Odds.WinnersProperties | Poker/OddsCalculator.cs:36-38 | the winners are not empty; they are exactly the players with the maximal strength, which nobody beats; distinct players give distinct winners |
| Odds.TieWinnersValid | Poker/OddsCalculator.cs:36-38 | for distinct players, every completion has a non-empty, duplicate-free set of winners among the players |
| Odds.CreditEachGet | Poker/OddsCalculator.cs:46-51 | crediting each winner adds the gain to each winner's entry and leaves the others; it creates entries for winners only |
| Odds.CreditGet | Poker/OddsCalculator.cs:40-52 | one completion adds each winner's share, 1 or 1/k; the others are unchanged |
| Odds.AsWrittenValid | Poker/OddsCalculator.cs:38 | the winners as written are also a valid choice of winners, so the crediting facts hold for them too |
| Odds.Tally | Poker/OddsCalculator.cs:28-53 | no contract of its own; `Odds.TallyPointwise`, `Odds.TallyTotal`, `Odds.TallyOrderIndependent` and `Odds.TallyFacts` state it |
| Odds.TallyPointwise | Poker/OddsCalculator.cs:30-53 | a player's points are the sum of their shares; a player has an entry exactly when they win some completion |
| Odds.TallyPositive | Poker/OddsCalculator.cs:30-53 | points are never negative, and present entries are positive |
| Odds.TallyKeys | Poker/OddsCalculator.cs:28-53 | only players get entries |
| Odds.TallyOrderIndependent | Poker/OddsCalculator.cs:30-53 | the points do not depend on the order in which completions are processed |
| Odds.SumSharesConcat | Poker/OddsCalculator.cs:30-53 | shares add up over a concatenation of completions |
| Odds.SumSharesPermutation | Poker/OddsCalculator.cs:30-53 | reordering the completions does not change a player's shares |
| Odds.SumOverAddTo | Poker/OddsCalculator.cs:55 | adding to one entry changes the total by that amount when the entry belongs to a player |
| Odds.SumOverCreditEach | Poker/OddsCalculator.cs:46-51 | crediting k winners the same gain adds k × gain to the total |
| Odds.SumOverCredit | Poker/OddsCalculator.cs:40-52 | each completion adds exactly 1 to the total points |
| Odds.TallyTotal | Poker/OddsCalculator.cs:30-55 | the total points after all completions is the number of completions |
| Odds.SumOverBounds | Poker/OddsCalculator.cs:55 | a total of non-negative entries is non-negative and at least each player's entry |
| Odds.SumInKeys | Poker/OddsCalculator.cs:55 | `points.Values.Sum()` equals the sum of the players' entries |
| Odds.TallyFacts | Poker/OddsCalculator.cs:30-55 | the total is the number of completions; an entry exists only if there is a completion; each entry lies in (0, number of completions] |
| Odds.SumOverNormalized | Poker/OddsCalculator.cs:55-56 | dividing every entry by the total divides the sum by it |
| Odds.NormalizedTally | Poker/OddsCalculator.cs:55-56 | for at least one completion: the normalised values sum to 1; they exist exactly for the players who win something; each lies in (0, 1] and is the player's shares over the number of completions |
| Odds.Validate | Poker/OddsCalculator.cs:16-23 | no contract of its own; `Odds.Check` and `Odds.OddsErrors` state it |
| Odds.Check | Poker/OddsCalculator.cs:16-23 | the checks in source order: fewer than two hands fails with `TooFewHands`; otherwise a hand of other than two cards fails with `HoleCardsNotTwo`; otherwise a drawn count outside {0, 3, 4} fails with `BadCommunityCount`; it passes exactly when none of these holds |
| Odds.OddsErrors | Poker/OddsCalculator.cs:16-23 | fewer than two hands fails first; then a hand of other than two cards; then a drawn count outside {0, 3, 4}; a repeated hand fails only when some completion exists |
| Odds.Pool | Poker/OddsCalculator.cs:25 | no contract of its own; `Odds.PoolMembership` states it |
| Odds.PoolMembership | Poker/OddsCalculator.cs:25 | the unseen pool is duplicate-free and holds exactly the standard cards in no hand, not drawn and not flopped |
| Odds.Completions | Poker/OddsCalculator.cs:26-30 | no contract of its own; `Odds.CompletionsShape` states it |
| Odds.CompletionsShape | Poker/OddsCalculator.cs:25-30 | there are C(pool size, 5 − drawn) completions, exactly the order-preserving (5 − drawn)-subsequences of the pool |
| Odds.TallyCompletions | Poker/OddsCalculator.cs:30-53 | the loop over the completions leaves the points of crediting each completion's winners in turn |
| Odds.CreditWinners | Poker/OddsCalculator.cs:40-52 | the loop over one completion's winners gives each of them its share |
| Odds.SumValues | Poker/OddsCalculator.cs:55 | the loop over the players adds up their entries |
| Odds.OddsOf | Poker/OddsCalculator.cs:11-57 | no contract of its own; `Odds.OddsErrors` and `Odds.OddsValues` state what it returns |
| Odds.Determine | Poker/OddsCalculator.cs:11-57 | `Determine` returns `OddsOf`: the first failing check, the duplicate-hand error, or the normalised points; each completion's point goes to the corrected winners, so tied players share it (see Findings) |
| Odds.OddsValues | Poker/OddsCalculator.cs:55-56 | a successful result is empty exactly when there is no completion; otherwise its values sum to 1; the keys are exactly the players who win something; every value is in (0, 1] and is the player's shares over the number of completions |
| Odds.WinnersAsWritten | Poker/OddsCalculator.cs:36-38 | no contract of its own; `Odds.AsWrittenValid` and `Odds.TiesAreNotSplit` state it |
| Odds.TiesAreNotSplit | Poker/OddsCalculator.cs:36-38 | when two distinct players both hold the best strength, the winners as written are one player, while the corrected winners hold both |
| Odds.AsWrittenWinners | Poker/OddsCalculator.cs:36-38 | no contract of its own; `Odds.AsWrittenValid` states that it is a valid choice of winners |
| Odds.OddsAsWritten | Poker/OddsCalculator.cs:11-57 | no contract of its own; `Odds.AsWrittenOdds` states what it returns |
| Odds.AsWrittenOdds | Poker/OddsCalculator.cs:11-57 | the code as written fails exactly when the corrected odds fail, with the same error; otherwise it is empty exactly without completions, its values add up to 1, each lies in (0, 1], and the keys are exactly the players that are the first best player of some completion |
| Decks.RepeatDistinct | Poker/Deck.cs:46-47 | `Union` keeps one Joker of any positive number, or none |
| Decks.DeckCards | Poker/Deck.cs:45-47 | no contract of its own; `Decks.DeckCardsContents` and `Decks.RepeatDistinct` state it |
| Decks.DeckCardsContents | Poker/Deck.cs:45-47 | before the shuffle, the deck is one Joker when any are asked for, then the 52 standard cards: 53 or 52 distinct cards |
| Decks.Shuffle | Poker/Deck.cs:48 | the shuffle is a permutation of the cards |
| Decks.ShuffleOrdered | Poker/Deck.cs:48 | the shuffle is a stable ascending sort of the cards on their random keys |
| Decks.Deck.constructor | Poker/Deck.cs:30-49 | a new deck holds the shuffled cards, a permutation of one optional Joker and the 52 standard cards, all distinct |
| Decks.Deck.Create | Poker/Deck.cs:30-32 | a negative joker count is rejected, and any other count builds a fresh deck |
| Decks.DeckPredicates | Poker/Deck.cs:9-13 | `Count` is the number of cards left in the queue; `IsEmpty` holds exactly when it is 0, and `CanDraw` exactly when the deck is not empty |
| Decks.Deck.Draw | Poker/Deck.cs:53 | an empty deck fails with "no cards left" and stays empty; otherwise the front card is returned and removed, and the rest is unchanged |
| Decks.Deck.DrawMany | Poker/Deck.cs:17-19 | a non-positive amount is rejected before anything is drawn; otherwise the first `amount` cards are returned in queue order and removed; asking for more than are left empties the deck and fails |
| Decks.Deck.Burn | Poker/Deck.cs:21 | `Burn` removes exactly the front card, or fails on an empty deck |

## Left out

- Concurrency is not modelled: `Parallel.ForEach` and the races of `ConcurrentDictionary.AddOrUpdate` (Poker/OddsCalculator.cs:28-53). The loop runs sequentially. `Odds.TallyOrderIndependent` shows that the order of the completions does not matter.
- `decimal` rounding is not modelled: the points and the odds are exact `real`s, so `1m / k` and the division by the total do not round.
- `Odds.WinnersAsWritten` does not model object identity. It models the consequence of comparing `Kickers` lists by reference: only the strength instance that `Max` returned is equal to it.
- Decks.Shuffle: `System.Random` is a parameter of type `nat -> int`. The model does not say how the numbers are distributed.
- `GetHashCode` (Poker/Hand.cs:84, Poker/Card.cs:20) is not modelled, because dictionaries here are Dafny maps with value equality.
- `ToString` is not modelled (Poker/HandStrength.cs:65-73, Poker/Hand.cs:18, 74-78, Poker/Card.cs:22). The member names of `Ranks.Name` only feed `Rank.Symbol`.
- Lazy `IEnumerable` evaluation is not modelled: every enumeration is a finite sequence, computed once.
- Exceptions are not modelled as exceptions: each one is an error value (`ParseError`, `OddsError`, `DeckError`), and messages and exception types are dropped. `Parallel.ForEach` would wrap a `ToDictionary` failure in an `AggregateException`; the model reports it as `DuplicateHands`.
- Cards.ToUpper: only the characters whose upper case is a character `Parse` accepts are upper-cased: ASCII letters and U+017F. Other letters keep their case. That cannot change a parse result, but `ToUpperInvariant` is not modelled in general.
- Cards.Trim: its own contract states only that the result neither starts nor ends with white space. Exactly which characters are removed is stated by `Cards.TrimStartPadding` and `Cards.TrimEndPadding`.
- HandStrengths.MaxIndexFrom: its own contract states only that the index is in range. What `Max` returns is stated by `HandStrengths.MaxIsMaximal`.
- Odds.OddsOf: the odds specification has no `ensures` of its own. `Odds.OddsErrors` and `Odds.OddsValues` state what it returns.
- HandStrengths.SortedGroups: `OrderByDescending(count).ThenByDescending(rank)` (Poker/HandStrength.cs:29-30) is one stable sort on the single key count × 256 + rank. That key orders the groups the same way, because ranks are below 256.
- The `params` overload of the `Hand<TRank>` constructor (Poker/Hand.cs:14) is the same as the sequence constructor.

## Findings

| source | as written | input that shows it | evidently intended | confidence | as-written member | corrected member |
|---|---|---|---|---|---|---|
| Poker/OddsCalculator.cs:38 | Winners are the players whose strength `Equals` the maximum. `HandStrength` is a struct that does not override `Equals` (Poker/HandStrength.cs:7-11), so its `Kickers` lists are compared by reference. Each player's strength has its own list, so only the player whose strength `Max` returned is a winner, and that player takes the whole point. | Two players hold 2♣ 3♦ and 4♣ 6♦, and A♠ K♠ Q♠ J♠ are drawn. On the completion with T♠, both players have the same royal flush. | Players with equal strength split the point: 1/2 each here. | not executed | Odds.TiesAreNotSplit | Odds.WinnersProperties |
