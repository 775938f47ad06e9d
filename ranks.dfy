/**
 * Card ranks (Rank.cs): the byte-valued enum and its one-character symbol.
 */
module Ranks {

  /** The enum members in declaration order; 1 is left free for the low Ace. */
  datatype Rank = Joker | Two | Three | Four | Five | Six | Seven | Eight | Nine | Ten | Jack | Queen | King | Ace

  /** The underlying byte value of a rank. */
  function Ordinal(r: Rank): (o: int)
    ensures 0 <= o <= 14 && o != 1
  {
    match r
    case Joker => 0
    case Two => 2
    case Three => 3
    case Four => 4
    case Five => 5
    case Six => 6
    case Seven => 7
    case Eight => 8
    case Nine => 9
    case Ten => 10
    case Jack => 11
    case Queen => 12
    case King => 13
    case Ace => 14
  }

  /** The enum member's name, as `ToString` renders it. */
  function Name(r: Rank): string
  {
    match r
    case Joker => "Joker"
    case Two => "Two"
    case Three => "Three"
    case Four => "Four"
    case Five => "Five"
    case Six => "Six"
    case Seven => "Seven"
    case Eight => "Eight"
    case Nine => "Nine"
    case Ten => "Ten"
    case Jack => "Jack"
    case Queen => "Queen"
    case King => "King"
    case Ace => "Ace"
  }

  /** The decimal rendering of a one-digit number. */
  function Digit(d: int): (s: string)
    requires 0 <= d < 10
    ensures |s| == 1 && '0' <= s[0] <= '9'
  {
    [('0' as int + d) as char]
  }

  /**
   * `RankExtensions.Symbol`: values below 10 are written as their digit,
   * the others as the first letter of the member's name.
   */
  function Symbol(r: Rank): (s: string)
    ensures |s| == 1
  {
    var value := Ordinal(r);
    if value < 10 then Digit(value) else Name(r)[..1]
  }

  /** Two..Ace in increasing order, the ranks of a standard deck. */
  const NamedRanks: seq<Rank> := [Two, Three, Four, Five, Six, Seven, Eight, Nine, Ten, Jack, Queen, King, Ace]

  /** NamedRanks lists every rank except the Joker, once each. */
  lemma NamedRanksComplete(r: Rank)
    ensures r in NamedRanks <==> r != Joker
    ensures |NamedRanks| == 13
  {
  }

  /** Two..Ace have the ordinals 2..14, so they strictly increase and skip 1. */
  lemma OrdinalsIncrease()
    ensures forall i :: 0 <= i < |NamedRanks| ==> Ordinal(NamedRanks[i]) == i + 2
    ensures forall i, j :: 0 <= i < j < |NamedRanks| ==> Ordinal(NamedRanks[i]) < Ordinal(NamedRanks[j])
    ensures Ordinal(Joker) == 0
    ensures forall r :: Ordinal(r) != 1
  {
  }

  /** The ordinal determines the rank. */
  lemma OrdinalInjective(a: Rank, b: Rank)
    ensures Ordinal(a) == Ordinal(b) <==> a == b
  {
  }

  /** The symbols of the number ranks. */
  lemma DigitSymbols()
    ensures Symbol(Two) == "2" && Symbol(Three) == "3" && Symbol(Four) == "4" && Symbol(Five) == "5"
    ensures Symbol(Six) == "6" && Symbol(Seven) == "7" && Symbol(Eight) == "8" && Symbol(Nine) == "9"
  {
  }

  /** The symbols of the ranks from Ten up: the initials of their names. */
  lemma LetterSymbols()
    ensures Symbol(Ten) == "T" && Symbol(Jack) == "J" && Symbol(Queen) == "Q"
    ensures Symbol(King) == "K" && Symbol(Ace) == "A"
  {
  }

  /** The Joker's ordinal is 0, below 10, so its symbol is the digit "0". */
  lemma JokerSymbol()
    ensures Symbol(Joker) == "0"
  {
  }

  /** Different ranks have different symbols, the Joker included. */
  lemma SymbolInjective(a: Rank, b: Rank)
    ensures Symbol(a) == Symbol(b) <==> a == b
  {
    DigitSymbols();
    LetterSymbols();
    JokerSymbol();
  }
}
