/**
 * Hand categories (HandRank.cs), weakest first; `None` marks a hand that
 * was not evaluated.
 */
module HandRanks {

  datatype HandRank = None | HighCard | OnePair | TwoPair | ThreeOfAKind | Straight
                    | Flush | FullHouse | FourOfAKind | StraightFlush | FiveOfAKind

  /** The underlying byte value, which is the category's position in the declaration. */
  function Ordinal(h: HandRank): (o: int)
    ensures 0 <= o <= 10
  {
    match h
    case None => 0
    case HighCard => 1
    case OnePair => 2
    case TwoPair => 3
    case ThreeOfAKind => 4
    case Straight => 5
    case Flush => 6
    case FullHouse => 7
    case FourOfAKind => 8
    case StraightFlush => 9
    case FiveOfAKind => 10
  }

  /** The categories in declaration order. */
  const AllHandRanks: seq<HandRank> := [None, HighCard, OnePair, TwoPair, ThreeOfAKind, Straight,
                                        Flush, FullHouse, FourOfAKind, StraightFlush, FiveOfAKind]

  /** Every category appears, and its ordinal is its position, so the order is the enum order. */
  lemma OrdinalIsPosition(h: HandRank)
    ensures h in AllHandRanks
    ensures forall i :: 0 <= i < |AllHandRanks| ==> Ordinal(AllHandRanks[i]) == i
  {
  }

  lemma OrdinalInjective(a: HandRank, b: HandRank)
    ensures Ordinal(a) == Ordinal(b) <==> a == b
  {
  }
}
