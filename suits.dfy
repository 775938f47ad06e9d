/**
 * Card suits (Suit.cs): the byte-valued enum with a `None` sentinel for
 * a suit left open (the Joker's), and the suit symbols.
 */
module Suits {

  datatype Suit = None | Clubs | Diamonds | Hearts | Spades

  /** The underlying byte value: None = 0, then 1..4 in declaration order. */
  function Ordinal(s: Suit): (o: int)
    ensures 0 <= o <= 4
    ensures o == 0 <==> s == None
  {
    match s
    case None => 0
    case Clubs => 1
    case Diamonds => 2
    case Hearts => 3
    case Spades => 4
  }

  /** `SuitExtensions.Symbol`: a one-character symbol, "?" for None. */
  function Symbol(s: Suit): (r: string)
    ensures |r| == 1
  {
    match s
    case Clubs => "\U{2663}"
    case Diamonds => "\U{2662}"
    case Hearts => "\U{2664}"
    case Spades => "\U{2660}"
    case None => "?"
  }

  /** The four suits of a standard deck, in the order the deck lists them. */
  const ConcreteSuits: seq<Suit> := [Clubs, Diamonds, Hearts, Spades]

  lemma ConcreteSuitsComplete(s: Suit)
    ensures s in ConcreteSuits <==> s != None
    ensures |ConcreteSuits| == 4
  {
  }

  /** Ordinals None = 0, Clubs = 1, Diamonds = 2, Hearts = 3, Spades = 4. */
  lemma Ordinals()
    ensures forall i :: 0 <= i < |ConcreteSuits| ==> Ordinal(ConcreteSuits[i]) == i + 1
    ensures Ordinal(None) == 0
  {
  }

  /** The symbol table of the concrete suits. */
  lemma SuitSymbols()
    ensures Symbol(Clubs) == "\U{2663}" && Symbol(Diamonds) == "\U{2662}"
    ensures Symbol(Hearts) == "\U{2664}" && Symbol(Spades) == "\U{2660}"
    ensures Symbol(None) == "?"
  {
  }

  /** Different suits have different symbols. */
  lemma SymbolInjective(a: Suit, b: Suit)
    ensures Symbol(a) == Symbol(b) <==> a == b
  {
  }
}
