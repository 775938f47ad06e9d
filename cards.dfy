/**
 * Playing cards (Card.cs): a rank of some type and a suit. `Card<Rank>` is
 * the card as dealt; `Card<Byte>` is one concrete interpretation of it, in
 * which an Ace may be worth 1 and a Joker any value 1..14.
 */
module Cards {
  import opened Wrappers
  import opened Ranks
  import opened Suits

  type Byte = x: int | 0 <= x < 256

  datatype Card<R> = Card(rank: R, suit: Suit)

  /** `Equals`: rank and suit both equal. */
  predicate Equals<R(==)>(a: Card<R>, b: Card<R>)
  {
    a.rank == b.rank && a.suit == b.suit
  }

  /** Card equality is value equality of the pair. */
  lemma EqualsIsEquality<R>(a: Card<R>, b: Card<R>)
    ensures Equals(a, b) <==> a == b
  {
  }

  /**
   * `CompareTo`: the default comparer on the ranks alone. For the byte-backed
   * enum and for `byte` that is the difference of the underlying values;
   * `ord` gives that value.
   */
  function CompareTo<R>(ord: R -> int, a: Card<R>, b: Card<R>): int
  {
    ord(a.rank) - ord(b.rank)
  }

  /** The value the comparer orders a plain byte rank by. */
  function ByteValue(b: Byte): int { b }

  /** The ordering is on ranks only: its sign is the sign of the rank difference, and it is antisymmetric. */
  lemma CompareToIsRankOrder<R>(ord: R -> int, a: Card<R>, b: Card<R>)
    ensures CompareTo(ord, a, b) > 0 <==> ord(a.rank) > ord(b.rank)
    ensures CompareTo(ord, a, b) == 0 <==> ord(a.rank) == ord(b.rank)
    ensures CompareTo(ord, a, b) == -CompareTo(ord, b, a)
  {
  }

  /** Two cards of one rank and different suits compare as equal yet are not equal. */
  lemma SameRankOtherSuit(r: Rank, s: Suit, t: Suit)
    requires s != t
    ensures CompareTo(Ranks.Ordinal, Card(r, s), Card(r, t)) == 0
    ensures !Equals(Card(r, s), Card(r, t))
  {
  }

  //
  // Parse
  //

  datatype ParseError = UnknownRankSymbol | UnknownSuitSymbol | UnexpectedLength

  /** `char.IsWhiteSpace`: the Unicode space separators, line and paragraph separators, and U+0009..U+000D, U+0085. */
  predicate IsWhiteSpace(c: char)
  {
    c == ' ' || ('\t' <= c <= '\r') || c == '\U{0085}' || c == '\U{00A0}' || c == '\U{1680}'
    || ('\U{2000}' <= c <= '\U{200A}') || c == '\U{2028}' || c == '\U{2029}'
    || c == '\U{202F}' || c == '\U{205F}' || c == '\U{3000}'
  }

  /** `string.Trim()` without arguments: drops leading and trailing white space. */
  function Trim(s: string): (r: string)
    ensures r == [] || (!IsWhiteSpace(r[0]) && !IsWhiteSpace(r[|r| - 1]))
  {
    TrimEnd(TrimStart(s))
  }

  function TrimStart(s: string): (r: string)
    ensures r == [] || !IsWhiteSpace(r[0])
    ensures |r| <= |s| && r == s[|s| - |r|..]
  {
    if s != [] && IsWhiteSpace(s[0]) then TrimStart(s[1..]) else s
  }

  function TrimEnd(s: string): (r: string)
    ensures r == [] || !IsWhiteSpace(r[|r| - 1])
    ensures |r| <= |s| && r == s[..|r|]
  {
    if s != [] && IsWhiteSpace(s[|s| - 1]) then TrimEnd(s[..|s| - 1]) else s
  }

  /**
   * Invariant upper-casing of one character, for the characters whose
   * upper case is one that Parse accepts: ASCII letters, and the long s
   * U+017F, whose upper case is 'S'.
   */
  function ToUpper(c: char): (u: char)
  {
    if 'a' <= c <= 'z' then (c as int - 32) as char
    else if c == '\U{017F}' then 'S'
    else c
  }

  function ToUpperInvariant(s: string): (r: string)
    ensures |r| == |s| && forall i :: 0 <= i < |s| ==> r[i] == ToUpper(s[i])
  {
    seq(|s|, i requires 0 <= i < |s| => ToUpper(s[i]))
  }

  /** `string.Length`: UTF-16 code units, two for a character outside the Basic Multilingual Plane. */
  function Utf16Length(s: string): (n: nat)
    ensures n >= |s|
  {
    if s == [] then 0 else (if s[0] as int >= 0x1_0000 then 2 else 1) + Utf16Length(s[1..])
  }

  function RankOfSymbol(c: char): Option<Rank>
  {
    match c
    case '2' => Some(Two)
    case '3' => Some(Three)
    case '4' => Some(Four)
    case '5' => Some(Five)
    case '6' => Some(Six)
    case '7' => Some(Seven)
    case '8' => Some(Eight)
    case '9' => Some(Nine)
    case 'T' => Some(Ten)
    case 'J' => Some(Jack)
    case 'Q' => Some(Queen)
    case 'K' => Some(King)
    case 'A' => Some(Ace)
    case _ => Option.None
  }

  function SuitOfSymbol(c: char): Option<Suit>
  {
    match c
    case 'C' => Some(Clubs)
    case 'D' => Some(Diamonds)
    case 'H' => Some(Hearts)
    case 'S' => Some(Spades)
    case '\U{2663}' => Some(Clubs)
    case '\U{2662}' => Some(Diamonds)
    case '\U{2664}' => Some(Hearts)
    case '\U{2660}' => Some(Spades)
    case _ => Option.None
  }

  /** The token Parse examines: the input trimmed and upper-cased. */
  function Normalize(input: string): string
  {
    ToUpperInvariant(Trim(input))
  }

  /**
   * `Card<Rank>.Parse`: trim, upper-case, then "J" is the Joker and a
   * two-unit token is a rank symbol followed by a suit symbol; the rank is
   * examined first. A two-unit token holding one character outside the
   * Basic Multilingual Plane reaches the rank test with half of it.
   */
  function Parse(input: string): (r: Result<Card<Rank>, ParseError>)
  {
    ParseToken(Normalize(input))
  }

  function ParseToken(token: string): (r: Result<Card<Rank>, ParseError>)
  {
    var length := Utf16Length(token);
    if length == 1 && token == "J" then Success(Card(Joker, Suits.None))
    else if length == 2 then
      if |token| == 1 then Failure(UnknownRankSymbol) else ParseRankAndSuit(token[0], token[1])
    else Failure(UnexpectedLength)
  }

  /** The two-unit case: the rank symbol first, then the suit symbol. */
  function ParseRankAndSuit(a: char, b: char): (r: Result<Card<Rank>, ParseError>)
  {
    match RankOfSymbol(a)
    case None => Failure(UnknownRankSymbol)
    case Some(rank) =>
      match SuitOfSymbol(b)
      case None => Failure(UnknownSuitSymbol)
      case Some(suit) => Success(Card(rank, suit))
  }

  /** A two-character token of BMP characters reaches the rank and suit tests. */
  lemma ParsePair(a: char, b: char)
    requires a as int < 0x1_0000 && b as int < 0x1_0000
    ensures ParseToken([a, b]) == ParseRankAndSuit(a, b)
  {
    assert [a, b][1..] == [b] && [b][1..] == [];
    assert Utf16Length([b]) == 1;
  }

  /** A one-character token is the Joker if it is "J", and otherwise too short. */
  lemma ParseSingle(c: char)
    requires c as int < 0x1_0000
    ensures ParseToken([c]) == if c == 'J' then Success(Card(Joker, Suits.None)) else Failure(UnexpectedLength)
  {
    assert [c][1..] == [];
    assert Utf16Length([c]) == 1;
  }

  /** A single character that is not white space is only upper-cased. */
  lemma NormalizeSingle(c: char)
    requires !IsWhiteSpace(c)
    ensures Normalize([c]) == [ToUpper(c)]
  {
  }

  /** A token without surrounding white space whose characters are already upper case is examined as is. */
  lemma NormalizeFixed(token: string)
    requires token != [] && !IsWhiteSpace(token[0]) && !IsWhiteSpace(token[|token| - 1])
    requires forall i :: 0 <= i < |token| ==> ToUpper(token[i]) == token[i]
    ensures Normalize(token) == token
  {
  }

  /** A character that Trim and ToUpperInvariant leave alone and that is one UTF-16 unit. */
  predicate Plain(c: char)
  {
    c as int < 0x1_0000 && !IsWhiteSpace(c) && ToUpper(c) == c
  }

  /** A two-character token of such characters is parsed as it stands. */
  lemma ParsePlainPair(a: char, b: char)
    requires Plain(a) && Plain(b)
    ensures Parse([a, b]) == ParseRankAndSuit(a, b)
  {
    NormalizeFixed([a, b]);
    ParsePair(a, b);
  }

  lemma RankSymbolRoundTrip(r: Rank)
    requires r != Joker
    ensures RankOfSymbol(Ranks.Symbol(r)[0]) == Some(r)
    ensures Plain(Ranks.Symbol(r)[0])
  {
    DigitSymbols();
    LetterSymbols();
  }

  lemma SuitSymbolRoundTrip(s: Suit)
    requires s != Suits.None
    ensures SuitOfSymbol(Suits.Symbol(s)[0]) == Some(s)
    ensures Plain(Suits.Symbol(s)[0])
  {
  }

  /** Parsing a rank symbol followed by a suit symbol gives back the card. */
  lemma {:induction false} ParseSymbols(r: Rank, s: Suit)
    requires r != Joker && s != Suits.None
    ensures Parse(Ranks.Symbol(r) + Suits.Symbol(s)) == Success(Card(r, s))
  {
    var a, b := Ranks.Symbol(r)[0], Suits.Symbol(s)[0];
    assert Ranks.Symbol(r) + Suits.Symbol(s) == [a, b];
    RankSymbolRoundTrip(r);
    SuitSymbolRoundTrip(s);
    ParsePlainPair(a, b);
  }

  /** The letter that also denotes a concrete suit. */
  function SuitLetter(s: Suit): char
  {
    match s
    case Clubs => 'C'
    case Diamonds => 'D'
    case Hearts => 'H'
    case Spades => 'S'
    case None => '?'
  }

  lemma SuitLetterRoundTrip(s: Suit)
    requires s != Suits.None
    ensures SuitOfSymbol(SuitLetter(s)) == Some(s)
    ensures Plain(SuitLetter(s))
  {
  }

  /** A rank symbol followed by a suit letter also gives back the card, so "JS" is the Jack of Spades. */
  lemma {:induction false} ParseLetters(r: Rank, s: Suit)
    requires r != Joker && s != Suits.None
    ensures Parse(Ranks.Symbol(r) + [SuitLetter(s)]) == Success(Card(r, s))
  {
    var a, b := Ranks.Symbol(r)[0], SuitLetter(s);
    assert Ranks.Symbol(r) + [b] == [a, b];
    RankSymbolRoundTrip(r);
    SuitLetterRoundTrip(s);
    ParsePlainPair(a, b);
  }

  /** "J" or "j" alone is the Joker, with no suit. */
  lemma ParseJoker(c: char)
    requires c == 'J' || c == 'j'
    ensures Parse([c]) == Success(Card(Joker, Suits.None))
  {
    assert ToUpper(c) == 'J';
    NormalizeSingle(c);
    ParseSingle('J');
    assert Parse([c]) == ParseToken(['J']);
  }

  /** Upper-casing maps white space to white space and nothing else to it. */
  lemma ToUpperKeepsWhiteSpace(c: char)
    ensures IsWhiteSpace(ToUpper(c)) <==> IsWhiteSpace(c)
    ensures ToUpper(c) as int < 0x1_0000 <==> c as int < 0x1_0000
    ensures ToUpper(ToUpper(c)) == ToUpper(c)
  {
  }

  lemma {:induction false} TrimStartUpper(s: string)
    ensures TrimStart(ToUpperInvariant(s)) == ToUpperInvariant(TrimStart(s))
  {
    if s != [] {
      ToUpperKeepsWhiteSpace(s[0]);
      assert ToUpperInvariant(s)[1..] == ToUpperInvariant(s[1..]);
      TrimStartUpper(s[1..]);
    }
  }

  lemma {:induction false} TrimEndUpper(s: string)
    ensures TrimEnd(ToUpperInvariant(s)) == ToUpperInvariant(TrimEnd(s))
  {
    if s != [] {
      ToUpperKeepsWhiteSpace(s[|s| - 1]);
      assert ToUpperInvariant(s)[..|s| - 1] == ToUpperInvariant(s[..|s| - 1]);
      TrimEndUpper(s[..|s| - 1]);
    }
  }

  lemma UpperIdempotent(t: string)
    ensures ToUpperInvariant(ToUpperInvariant(t)) == ToUpperInvariant(t)
  {
    forall i | 0 <= i < |t| ensures ToUpper(ToUpper(t[i])) == ToUpper(t[i]) {
      ToUpperKeepsWhiteSpace(t[i]);
    }
  }

  lemma NormalizeUpper(input: string)
    ensures Normalize(ToUpperInvariant(input)) == Normalize(input)
  {
    TrimStartUpper(input);
    TrimEndUpper(TrimStart(input));
    UpperIdempotent(Trim(input));
  }

  /** Letter case is ignored: upper-casing the input first does not change the result. */
  lemma ParseIgnoresCase(input: string)
    ensures Parse(ToUpperInvariant(input)) == Parse(input)
  {
    NormalizeUpper(input);
  }

  predicate AllWhiteSpace(s: string)
  {
    forall i :: 0 <= i < |s| ==> IsWhiteSpace(s[i])
  }

  lemma {:induction false} TrimStartPadding(pad: string, t: string)
    requires AllWhiteSpace(pad)
    requires t == [] || !IsWhiteSpace(t[0])
    ensures TrimStart(pad + t) == t
  {
    if pad != [] {
      assert (pad + t)[1..] == pad[1..] + t;
      TrimStartPadding(pad[1..], t);
    } else {
      assert pad + t == t;
    }
  }

  lemma {:induction false} TrimEndPadding(t: string, pad: string)
    requires AllWhiteSpace(pad)
    requires t == [] || !IsWhiteSpace(t[|t| - 1])
    ensures TrimEnd(t + pad) == t
  {
    if pad != [] {
      assert (t + pad)[..|t + pad| - 1] == t + pad[..|pad| - 1];
      TrimEndPadding(t, pad[..|pad| - 1]);
    } else {
      assert t + pad == t;
    }
  }

  /** Surrounding white space is ignored. */
  lemma ParseIgnoresSpace(before: string, token: string, after: string)
    requires AllWhiteSpace(before) && AllWhiteSpace(after)
    requires token != [] && !IsWhiteSpace(token[0]) && !IsWhiteSpace(token[|token| - 1])
    ensures Parse(before + token + after) == Parse(token)
  {
    TrimStartPadding(before, token + after);
    assert before + token + after == before + (token + after);
    TrimEndPadding(token, after);
  }

  lemma NormalizePair(a: char, b: char)
    requires !IsWhiteSpace(a) && !IsWhiteSpace(b)
    ensures Normalize([a, b]) == [ToUpper(a), ToUpper(b)]
  {
    assert TrimStart([a, b]) == [a, b];
    assert TrimEnd([a, b]) == [a, b];
    var u := ToUpperInvariant([a, b]);
    assert u[0] == ToUpper(a) && u[1] == ToUpper(b);
  }

  /** A token of two BMP characters is upper-cased and handed to the rank and suit tests. */
  lemma ParseTwoCharacters(a: char, b: char)
    requires a as int < 0x1_0000 && b as int < 0x1_0000
    requires !IsWhiteSpace(a) && !IsWhiteSpace(b)
    ensures Parse([a, b]) == ParseRankAndSuit(ToUpper(a), ToUpper(b))
  {
    ToUpperKeepsWhiteSpace(a);
    ToUpperKeepsWhiteSpace(b);
    NormalizePair(a, b);
    ParsePair(ToUpper(a), ToUpper(b));
  }

  /**
   * The outcomes of the two-unit case: the rank symbol is examined first,
   * so an unknown rank is reported even when the suit is unknown too.
   */
  lemma RankAndSuitOutcomes(u: char, v: char)
    ensures ParseRankAndSuit(u, v).Success? <==> RankOfSymbol(u).Some? && SuitOfSymbol(v).Some?
    ensures ParseRankAndSuit(u, v) == Failure(UnknownRankSymbol) <==> RankOfSymbol(u).None?
    ensures ParseRankAndSuit(u, v) == Failure(UnknownSuitSymbol) <==> RankOfSymbol(u).Some? && SuitOfSymbol(v).None?
    ensures ParseRankAndSuit(u, v).Success? ==> ParseRankAndSuit(u, v).value == Card(RankOfSymbol(u).value, SuitOfSymbol(v).value)
  {
  }

  /** Any token but "J" of one unit, or of more than two units, is rejected for its length. */
  lemma ParseUnexpectedLength(input: string)
    requires Utf16Length(Normalize(input)) !in {1, 2} || (Utf16Length(Normalize(input)) == 1 && Normalize(input) != "J")
    ensures Parse(input) == Failure(UnexpectedLength)
  {
  }

  /** A character outside the Basic Multilingual Plane is two units long and fails the rank test. */
  lemma ParseAstral(c: char)
    requires c as int >= 0x1_0000
    ensures Parse([c]) == Failure(UnknownRankSymbol)
  {
    NormalizeAstral(c);
    ParseTokenAstral(c);
  }

  lemma ParseTokenAstral(c: char)
    requires c as int >= 0x1_0000
    ensures ParseToken([c]) == Failure(UnknownRankSymbol)
  {
    assert [c][1..] == [];
    assert Utf16Length([c]) == 2;
  }

  lemma NormalizeAstral(c: char)
    requires c as int >= 0x1_0000
    ensures Normalize([c]) == [c]
  {
    NotWhiteSpace(c);
    assert [c][1..] == [] && [c][..0] == [];
    assert Trim([c]) == [c];
    UpperAstral(c);
  }

  lemma NotWhiteSpace(c: char)
    requires c as int >= 0x1_0000
    ensures !IsWhiteSpace(c)
  {
  }

  lemma UpperAstral(c: char)
    requires c as int >= 0x1_0000
    ensures ToUpperInvariant([c]) == [c]
  {
    assert ToUpper(c) == c;
  }

  /** A successful parse gives a standard card or the suit-less Joker; the Joker only from "J". */
  lemma ParseResults(input: string)
    ensures Parse(input).Success? ==> (Parse(input).value.rank == Joker <==> Parse(input).value.suit == Suits.None)
  {
  }

  //
  // The standard deck
  //

  /** Two..Ace, each in the four concrete suits, rank-major. */
  function StandardCards(): (r: seq<Card<Rank>>)
    ensures |r| == 52
  {
    seq(52, i requires 0 <= i < 52 => Card(NamedRanks[i / 4], ConcreteSuits[i % 4]))
  }

  /** The 52 cards are pairwise distinct. */
  lemma StandardCardsDistinct()
    ensures forall i, j :: 0 <= i < j < |StandardCards()| ==> StandardCards()[i] != StandardCards()[j]
  {
    var cards := StandardCards();
    forall i, j | 0 <= i < j < 52 ensures cards[i] != cards[j] {
      if i / 4 == j / 4 {
        assert i % 4 != j % 4;
        assert ConcreteSuits[i % 4] != ConcreteSuits[j % 4];
      } else {
        OrdinalsIncrease();
        assert Ranks.Ordinal(NamedRanks[i / 4]) != Ranks.Ordinal(NamedRanks[j / 4]);
      }
    }
  }

  /** Exactly the cards with a named rank and a concrete suit are standard. */
  lemma StandardCardsMembership(c: Card<Rank>)
    ensures c in StandardCards() <==> c.rank != Joker && c.suit != Suits.None
  {
    NamedRanksComplete(c.rank);
    ConcreteSuitsComplete(c.suit);
    if c in StandardCards() {
      var k :| 0 <= k < 52 && StandardCards()[k] == c;
      StandardCardAt(k / 4, k % 4);
    }
    if c.rank != Joker && c.suit != Suits.None {
      var i :| 0 <= i < 13 && NamedRanks[i] == c.rank;
      var j :| 0 <= j < 4 && ConcreteSuits[j] == c.suit;
      StandardCardAt(i, j);
    }
  }

  /** Card `4 * i + j` has the i-th named rank and the j-th concrete suit. */
  lemma StandardCardAt(i: int, j: int)
    requires 0 <= i < 13 && 0 <= j < 4
    ensures 4 * i + j < 52
    ensures StandardCards()[4 * i + j] == Card(NamedRanks[i], ConcreteSuits[j])
  {
    assert (4 * i + j) / 4 == i && (4 * i + j) % 4 == j;
  }
}
