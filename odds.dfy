/**
 * `OddsCalculator.Determine` (OddsCalculator.cs): the share of all possible
 * boards each player wins. Every completion of the community cards from
 * the unseen cards hands out one point, split evenly among the players
 * whose seven-card strength is best; the points are then divided by their
 * total. The enumeration runs as a sequential loop.
 */
module Odds {
  import opened Wrappers
  import opened Linq
  import opened Combinatorics
  import opened Ranks
  import opened Suits
  import opened Cards
  import opened SortedHands
  import opened HandStrengths
  import opened Hands

  datatype OddsError = TooFewHands | HoleCardsNotTwo | BadCommunityCount | DuplicateHands

  /** The three argument checks, in the order they are made. */
  function Validate(hands: seq<Hand<Rank>>, drawn: seq<Card<Rank>>): (o: Outcome<OddsError>)
  {
    if |hands| < 2 then Fail(TooFewHands)
    else if exists h :: h in hands && Count(h) != 2 then Fail(HoleCardsNotTwo)
    else if |drawn| !in {0, 3, 4} then Fail(BadCommunityCount)
    else Pass
  }

  function HandCards(h: Hand<Rank>): seq<Card<Rank>> { h.cards }

  /** `CreateCards().Except(hole cards).Except(drawn).Except(flopped)` */
  function Pool(hands: seq<Hand<Rank>>, drawn: seq<Card<Rank>>, flopped: seq<Card<Rank>>): seq<Card<Rank>>
  {
    Except(Except(Except(StandardCards(), Flatten(Select(hands, HandCards))), drawn), flopped)
  }

  /** Every way to draw the missing `5 - |drawn|` community cards from the pool. */
  function Completions(hands: seq<Hand<Rank>>, drawn: seq<Card<Rank>>, flopped: seq<Card<Rank>>): seq<seq<Card<Rank>>>
  {
    Combinations(Pool(hands, drawn, flopped), 5 - |drawn|)
  }

  //
  // The winners of one completion
  //

  /** `new Hand(hand.Concat(drawn).Concat(next)).Strength` for each player, in order. */
  function StrengthsOf(hands: seq<Hand<Rank>>, drawn: seq<Card<Rank>>, next: seq<Card<Rank>>): (ss: seq<HandStrength>)
    ensures |ss| == |hands|
    ensures forall i :: 0 <= i < |hands| ==> ss[i] == Strength(NewPlayerHand(hands[i].cards + drawn + next))
  {
    if hands == [] then []
    else [Strength(NewPlayerHand(hands[0].cards + drawn + next))] + StrengthsOf(hands[1..], drawn, next)
  }

  /** The players whose strength is `best`, in order. */
  function Keep(hands: seq<Hand<Rank>>, ss: seq<HandStrength>, best: HandStrength): (ws: seq<Hand<Rank>>)
    requires |ss| == |hands|
  {
    if hands == [] then []
    else (if ss[0] == best then [hands[0]] else []) + Keep(hands[1..], ss[1..], best)
  }

  /** The winners, taking ties to be equal strengths. */
  function WinnersFor(hands: seq<Hand<Rank>>, drawn: seq<Card<Rank>>, next: seq<Card<Rank>>): seq<Hand<Rank>>
  {
    var ss := StrengthsOf(hands, drawn, next);
    if ss == [] then [] else Keep(hands, ss, MaxStrength(ss))
  }

  lemma {:induction false} KeepMembers(hands: seq<Hand<Rank>>, ss: seq<HandStrength>, best: HandStrength)
    requires |ss| == |hands|
    ensures forall w :: w in Keep(hands, ss, best) <==> exists i :: 0 <= i < |hands| && hands[i] == w && ss[i] == best
  {
    if hands != [] {
      KeepMembers(hands[1..], ss[1..], best);
      forall w ensures w in Keep(hands, ss, best) <==> exists i :: 0 <= i < |hands| && hands[i] == w && ss[i] == best {
        if w in Keep(hands[1..], ss[1..], best) {
          var i :| 0 <= i < |hands[1..]| && hands[1..][i] == w && ss[1..][i] == best;
          assert hands[i + 1] == w && ss[i + 1] == best;
        }
        if exists i :: 0 <= i < |hands| && hands[i] == w && ss[i] == best {
          var i :| 0 <= i < |hands| && hands[i] == w && ss[i] == best;
          if i > 0 {
            assert hands[1..][i - 1] == w && ss[1..][i - 1] == best;
          }
        }
      }
    }
  }

  lemma {:induction false} KeepDistinct(hands: seq<Hand<Rank>>, ss: seq<HandStrength>, best: HandStrength)
    requires |ss| == |hands| && IsDistinct(hands)
    ensures IsDistinct(Keep(hands, ss, best))
  {
    if hands != [] {
      var tail := hands[1..];
      assert IsDistinct(tail) by {
        forall i, j | 0 <= i < j < |tail| ensures tail[i] != tail[j] {
          assert tail[i] == hands[i + 1] && tail[j] == hands[j + 1];
        }
      }
      KeepDistinct(tail, ss[1..], best);
      KeepMembers(tail, ss[1..], best);
      assert forall i :: 0 <= i < |tail| ==> tail[i] == hands[i + 1];
      assert hands[0] !in Keep(tail, ss[1..], best);
    }
  }

  /**
   * The winners are the players whose strength equals the best, and the
   * best is never beaten; there is at least one, and no player twice when
   * the hands are distinct.
   */
  lemma WinnersProperties(hands: seq<Hand<Rank>>, drawn: seq<Card<Rank>>, next: seq<Card<Rank>>)
    requires hands != []
    ensures var ss := StrengthsOf(hands, drawn, next);
      && WinnersFor(hands, drawn, next) != []
      && (forall w :: w in WinnersFor(hands, drawn, next) <==>
            exists i :: 0 <= i < |hands| && hands[i] == w && ss[i] == MaxStrength(ss))
      && (forall i :: 0 <= i < |hands| ==> Compare(ss[i], MaxStrength(ss)) <= 0)
      && (IsDistinct(hands) ==> IsDistinct(WinnersFor(hands, drawn, next)))
  {
    var ss := StrengthsOf(hands, drawn, next);
    MaxIsMaximal(ss);
    KeepMembers(hands, ss, MaxStrength(ss));
    assert hands[MaxIndex(ss)] in WinnersFor(hands, drawn, next);
    if IsDistinct(hands) {
      KeepDistinct(hands, ss, MaxStrength(ss));
    }
  }

  //
  // Crediting
  //

  /** The points of `h`, 0 when it has none. */
  function Get(m: map<Hand<Rank>, real>, h: Hand<Rank>): real
  {
    if h in m then m[h] else 0.0
  }

  /** `AddOrUpdate(key, v, (_, current) => current + v)` */
  function AddTo(m: map<Hand<Rank>, real>, h: Hand<Rank>, v: real): (r: map<Hand<Rank>, real>)
  {
    m[h := Get(m, h) + v]
  }

  /** The `foreach` over the winners, each receiving `gain`. */
  function CreditEach(m: map<Hand<Rank>, real>, ws: seq<Hand<Rank>>, gain: real): map<Hand<Rank>, real>
  {
    if ws == [] then m else AddTo(CreditEach(m, ws[..|ws| - 1], gain), ws[|ws| - 1], gain)
  }

  /** A sole winner takes the point, otherwise each of the k winners takes 1/k of it. */
  function Credit(m: map<Hand<Rank>, real>, ws: seq<Hand<Rank>>): map<Hand<Rank>, real>
  {
    if |ws| == 1 then AddTo(m, ws[0], 1.0)
    else if ws == [] then m
    else CreditEach(m, ws, 1.0 / (|ws| as real))
  }

  /** What one completion is worth to `h`. */
  function Share(ws: seq<Hand<Rank>>, h: Hand<Rank>): real
  {
    if h in ws then 1.0 / (|ws| as real) else 0.0
  }

  lemma {:induction false} CreditEachGet(m: map<Hand<Rank>, real>, ws: seq<Hand<Rank>>, gain: real, h: Hand<Rank>)
    requires IsDistinct(ws)
    ensures Get(CreditEach(m, ws, gain), h) == Get(m, h) + (if h in ws then gain else 0.0)
    ensures h in CreditEach(m, ws, gain) <==> h in m || h in ws
  {
    if ws != [] {
      var front := ws[..|ws| - 1];
      FrontDistinct(ws);
      CreditEachGet(m, front, gain, h);
      assert ws == front + [ws[|ws| - 1]];
    }
  }

  /**
   * Crediting adds the share of the completion to each winner and nothing
   * to anyone else; the winners become keys.
   */
  lemma CreditGet(m: map<Hand<Rank>, real>, ws: seq<Hand<Rank>>, h: Hand<Rank>)
    requires IsDistinct(ws)
    ensures Get(Credit(m, ws), h) == Get(m, h) + Share(ws, h)
    ensures h in Credit(m, ws) <==> h in m || h in ws
  {
    if |ws| == 1 {
      assert h in ws <==> h == ws[0];
    } else if ws != [] {
      CreditEachGet(m, ws, 1.0 / (|ws| as real), h);
    }
  }

  /**
   * The winners of each completion, as a function; the crediting facts
   * below hold for any choice of winners that is never empty, never names
   * a player twice, and names only players.
   */
  type WinnerChoice = seq<Card<Rank>> -> seq<Hand<Rank>>

  ghost predicate ValidWinners(hands: seq<Hand<Rank>>, win: WinnerChoice)
  {
    forall c :: win(c) != [] && IsDistinct(win(c)) && forall w :: w in win(c) ==> w in hands
  }

  /** The winners taking ties to be equal strengths. */
  function TieWinners(hands: seq<Hand<Rank>>, drawn: seq<Card<Rank>>): WinnerChoice
  {
    (next: seq<Card<Rank>>) => WinnersFor(hands, drawn, next)
  }

  lemma TieWinnersValid(hands: seq<Hand<Rank>>, drawn: seq<Card<Rank>>)
    requires hands != [] && IsDistinct(hands)
    ensures ValidWinners(hands, TieWinners(hands, drawn))
  {
    forall c ensures WinnersFor(hands, drawn, c) != [] && IsDistinct(WinnersFor(hands, drawn, c))
      && forall w :: w in WinnersFor(hands, drawn, c) ==> w in hands
    {
      WinnersProperties(hands, drawn, c);
    }
  }

  /** One completion: find its winners and credit them. */
  function AddCompletion(win: WinnerChoice, m: map<Hand<Rank>, real>, next: seq<Card<Rank>>): map<Hand<Rank>, real>
  {
    Credit(m, win(next))
  }

  /** The points after the completions `cs`, taken in order. */
  function Tally(win: WinnerChoice, cs: seq<seq<Card<Rank>>>): map<Hand<Rank>, real>
  {
    if cs == [] then map[] else AddCompletion(win, Tally(win, cs[..|cs| - 1]), cs[|cs| - 1])
  }

  /** The shares of `h` over the completions `cs`. */
  function SumShares(win: WinnerChoice, cs: seq<seq<Card<Rank>>>, h: Hand<Rank>): real
  {
    if cs == [] then 0.0 else SumShares(win, cs[..|cs| - 1], h) + Share(win(cs[|cs| - 1]), h)
  }

  /** `h` is among the winners of some completion in `cs`. */
  ghost predicate WinsSome(win: WinnerChoice, cs: seq<seq<Card<Rank>>>, h: Hand<Rank>)
  {
    exists c :: c in cs && h in win(c)
  }

  /**
   * The points of a player are the sum of its shares; a player has an entry
   * exactly when it wins some completion.
   */
  lemma {:induction false} TallyPointwise(hands: seq<Hand<Rank>>, win: WinnerChoice, cs: seq<seq<Card<Rank>>>, h: Hand<Rank>)
    requires ValidWinners(hands, win)
    ensures Get(Tally(win, cs), h) == SumShares(win, cs, h)
    ensures h in Tally(win, cs) <==> WinsSome(win, cs, h)
  {
    if cs != [] {
      var front, last := cs[..|cs| - 1], cs[|cs| - 1];
      TallyPointwise(hands, win, front, h);
      CreditGet(Tally(win, front), win(last), h);
      assert cs == front + [last];
      if WinsSome(win, cs, h) {
        var c :| c in cs && h in win(c);
        if c != last {
          assert c in front;
        }
      }
    }
  }

  //
  // Sums over the players
  //

  /** The sum of the points of `hs`. */
  function SumOver(hs: seq<Hand<Rank>>, m: map<Hand<Rank>, real>): real
  {
    if hs == [] then 0.0 else SumOver(hs[..|hs| - 1], m) + Get(m, hs[|hs| - 1])
  }

  /** Dropping the last element keeps a sequence duplicate-free. */
  lemma FrontDistinct<T>(s: seq<T>)
    requires IsDistinct(s) && s != []
    ensures IsDistinct(s[..|s| - 1]) && s[|s| - 1] !in s[..|s| - 1]
  {
    var front := s[..|s| - 1];
    forall i, j | 0 <= i < j < |front| ensures front[i] != front[j] {
      assert front[i] == s[i] && front[j] == s[j];
    }
    forall i | 0 <= i < |front| ensures front[i] != s[|s| - 1] {
      assert front[i] == s[i];
    }
  }

  /** Adding `v` to the entry of a player adds `v` to the sum over distinct players. */
  lemma {:induction false} SumOverAddTo(hs: seq<Hand<Rank>>, m: map<Hand<Rank>, real>, w: Hand<Rank>, v: real)
    requires IsDistinct(hs)
    ensures SumOver(hs, AddTo(m, w, v)) == SumOver(hs, m) + (if w in hs then v else 0.0)
  {
    if hs != [] {
      var front, last := hs[..|hs| - 1], hs[|hs| - 1];
      FrontDistinct(hs);
      SumOverAddTo(front, m, w, v);
      assert hs == front + [last];
    }
  }

  /** `n` copies of `g` added up. */
  function Times(n: nat, g: real): real
  {
    if n == 0 then 0.0 else Times(n - 1, g) + g
  }

  lemma {:induction false} TimesIsProduct(n: nat, g: real)
    ensures Times(n, g) == (n as real) * g
  {
    if n > 0 {
      TimesIsProduct(n - 1, g);
    }
  }

  /** Crediting `gain` to winners among distinct players adds `gain` per winner. */
  lemma {:induction false} SumOverCreditEach(hs: seq<Hand<Rank>>, m: map<Hand<Rank>, real>, ws: seq<Hand<Rank>>, gain: real)
    requires IsDistinct(hs) && forall w :: w in ws ==> w in hs
    ensures SumOver(hs, CreditEach(m, ws, gain)) == SumOver(hs, m) + Times(|ws|, gain)
  {
    if ws != [] {
      var front, last := ws[..|ws| - 1], ws[|ws| - 1];
      assert forall w :: w in front ==> w in ws;
      SumOverCreditEach(hs, m, front, gain);
      SumOverAddTo(hs, CreditEach(m, front, gain), last, gain);
    }
  }

  /** Crediting winners, all among distinct players, adds exactly one point. */
  lemma SumOverCredit(hs: seq<Hand<Rank>>, m: map<Hand<Rank>, real>, ws: seq<Hand<Rank>>)
    requires IsDistinct(hs) && ws != [] && forall w :: w in ws ==> w in hs
    ensures SumOver(hs, Credit(m, ws)) == SumOver(hs, m) + 1.0
  {
    if |ws| == 1 {
      SumOverAddTo(hs, m, ws[0], 1.0);
    } else {
      var k := |ws| as real;
      SumOverCreditEach(hs, m, ws, 1.0 / k);
      TimesIsProduct(|ws|, 1.0 / k);
      assert k * (1.0 / k) == 1.0;
    }
  }

  /** The winners of one completion are a non-empty, duplicate-free list of players. */
  lemma ValidAt(hands: seq<Hand<Rank>>, win: WinnerChoice, c: seq<Card<Rank>>)
    requires ValidWinners(hands, win)
    ensures win(c) != [] && IsDistinct(win(c)) && forall w :: w in win(c) ==> w in hands
  {
  }

  /** Each completion adds exactly one point in total. */
  lemma {:induction false} TallyTotal(hands: seq<Hand<Rank>>, win: WinnerChoice, cs: seq<seq<Card<Rank>>>)
    requires IsDistinct(hands) && ValidWinners(hands, win)
    ensures SumOver(hands, Tally(win, cs)) == |cs| as real
  {
    if cs != [] {
      var front, last := cs[..|cs| - 1], cs[|cs| - 1];
      TallyTotal(hands, win, front);
      ValidAt(hands, win, last);
      assert Tally(win, cs) == Credit(Tally(win, front), win(last));
      SumOverCredit(hands, Tally(win, front), win(last));
      assert |cs| as real == |front| as real + 1.0;
    } else {
      SumOverEmpty(hands);
    }
  }

  lemma {:induction false} SumOverEmpty(hs: seq<Hand<Rank>>)
    ensures SumOver(hs, map[]) == 0.0
  {
    if hs != [] {
      SumOverEmpty(hs[..|hs| - 1]);
    }
  }

  /** The entries are non-negative, and those present are positive. */
  lemma {:induction false} TallyPositive(hands: seq<Hand<Rank>>, win: WinnerChoice, cs: seq<seq<Card<Rank>>>, h: Hand<Rank>)
    requires ValidWinners(hands, win)
    ensures Get(Tally(win, cs), h) >= 0.0
    ensures h in Tally(win, cs) ==> Tally(win, cs)[h] > 0.0
  {
    if cs != [] {
      var front, last := cs[..|cs| - 1], cs[|cs| - 1];
      TallyPositive(hands, win, front, h);
      CreditGet(Tally(win, front), win(last), h);
    }
  }

  /** A sum of non-negative entries is at least each of its terms. */
  lemma {:induction false} SumOverBounds(hs: seq<Hand<Rank>>, m: map<Hand<Rank>, real>, h: Hand<Rank>)
    requires forall x :: Get(m, x) >= 0.0
    ensures SumOver(hs, m) >= 0.0
    ensures h in hs ==> Get(m, h) <= SumOver(hs, m)
  {
    if hs != [] {
      var front, last := hs[..|hs| - 1], hs[|hs| - 1];
      SumOverBounds(front, m, h);
      assert hs == front + [last];
    }
  }

  /** Only players have entries. */
  lemma TallyKeys(hands: seq<Hand<Rank>>, win: WinnerChoice, cs: seq<seq<Card<Rank>>>)
    requires ValidWinners(hands, win)
    ensures forall h :: h in Tally(win, cs) ==> h in hands
  {
    forall h | h in Tally(win, cs) ensures h in hands {
      TallyPointwise(hands, win, cs, h);
      var c :| c in cs && h in win(c);
    }
  }

  /** The points are a function of the multiset of completions, not of their order. */
  lemma TallyOrderIndependent(hands: seq<Hand<Rank>>, win: WinnerChoice, cs: seq<seq<Card<Rank>>>, ds: seq<seq<Card<Rank>>>)
    requires ValidWinners(hands, win) && multiset(cs) == multiset(ds)
    ensures Tally(win, cs) == Tally(win, ds)
  {
    forall h ensures Get(Tally(win, cs), h) == Get(Tally(win, ds), h) && (h in Tally(win, cs) <==> h in Tally(win, ds)) {
      TallyPointwise(hands, win, cs, h);
      TallyPointwise(hands, win, ds, h);
      SumSharesPermutation(win, cs, ds, h);
      forall c ensures c in cs <==> c in ds {
        assert c in cs <==> c in multiset(cs);
        assert c in ds <==> c in multiset(ds);
      }
    }
  }

  lemma {:induction false} SumSharesConcat(win: WinnerChoice, a: seq<seq<Card<Rank>>>, b: seq<seq<Card<Rank>>>, h: Hand<Rank>)
    ensures SumShares(win, a + b, h) == SumShares(win, a, h) + SumShares(win, b, h)
  {
    if b != [] {
      assert (a + b)[..|a + b| - 1] == a + b[..|b| - 1];
      SumSharesConcat(win, a, b[..|b| - 1], h);
    } else {
      assert a + b == a;
    }
  }

  lemma {:induction false} SumSharesPermutation(win: WinnerChoice, cs: seq<seq<Card<Rank>>>, ds: seq<seq<Card<Rank>>>, h: Hand<Rank>)
    requires multiset(cs) == multiset(ds)
    ensures SumShares(win, cs, h) == SumShares(win, ds, h)
    decreases |cs|
  {
    if cs != [] {
      var front, last := cs[..|cs| - 1], cs[|cs| - 1];
      assert cs == front + [last];
      assert last in multiset(ds);
      var k :| 0 <= k < |ds| && ds[k] == last;
      var rest := ds[..k] + ds[k + 1..];
      MultisetWithout(cs, ds, k);
      assert ds == ds[..k] + [last] + ds[k + 1..];
      SumSharesPermutation(win, front, rest, h);
      SumSharesConcat(win, ds[..k] + [last], ds[k + 1..], h);
      SumSharesConcat(win, ds[..k], [last], h);
      SumSharesConcat(win, ds[..k], ds[k + 1..], h);
      assert SumShares(win, [last], h) == Share(win(last), h) by {
        assert [last][..0] == [];
      }
    } else {
      assert |ds| == |multiset(ds)| == 0;
    }
  }

  //
  // Normalisation
  //

  /** `points.ToDictionary(pair => pair.Key, pair => pair.Value / total)` */
  function Normalized(points: map<Hand<Rank>, real>, total: real): (r: map<Hand<Rank>, real>)
    requires total != 0.0 || points == map[]
  {
    map h | h in points :: points[h] / total
  }

  lemma {:induction false} SumOverNormalized(hs: seq<Hand<Rank>>, m: map<Hand<Rank>, real>, total: real)
    requires total != 0.0
    ensures SumOver(hs, Normalized(m, total)) == SumOver(hs, m) / total
  {
    if hs != [] {
      var front, last := hs[..|hs| - 1], hs[|hs| - 1];
      SumOverNormalized(front, m, total);
      var a, b := SumOver(front, m), Get(m, last);
      assert Get(Normalized(m, total), last) == b / total;
      DivideSum(a, b, total);
    }
  }

  lemma DivideSum(a: real, b: real, t: real)
    requires t != 0.0
    ensures a / t + b / t == (a + b) / t
  {
  }

  /** The facts about the points that the division needs. */
  lemma TallyFacts(hands: seq<Hand<Rank>>, win: WinnerChoice, cs: seq<seq<Card<Rank>>>)
    requires IsDistinct(hands) && ValidWinners(hands, win)
    ensures SumOver(hands, Tally(win, cs)) == |cs| as real
    ensures Tally(win, cs) != map[] ==> cs != []
    ensures forall h :: h in Tally(win, cs) ==> h in hands && 0.0 < Tally(win, cs)[h] <= |cs| as real
  {
    var t := Tally(win, cs);
    TallyTotal(hands, win, cs);
    TallyKeys(hands, win, cs);
    forall x ensures Get(t, x) >= 0.0 {
      TallyPositive(hands, win, cs, x);
    }
    forall h | h in t ensures 0.0 < t[h] <= |cs| as real {
      TallyPositive(hands, win, cs, h);
      SumOverBounds(hands, t, h);
    }
  }

  /** The specification of `Determine`. */
  function OddsOf(hands: seq<Hand<Rank>>, drawn: seq<Card<Rank>>, flopped: seq<Card<Rank>>): (r: Result<map<Hand<Rank>, real>, OddsError>)
  {
    match Validate(hands, drawn)
    case Fail(e) => Failure(e)
    case Pass => OddsOfValid(hands, drawn, flopped)
  }

  /** `Determine` once its arguments have passed the checks. */
  function OddsOfValid(hands: seq<Hand<Rank>>, drawn: seq<Card<Rank>>, flopped: seq<Card<Rank>>): (r: Result<map<Hand<Rank>, real>, OddsError>)
    requires hands != []
  {
    var cs := Completions(hands, drawn, flopped);
    if cs != [] && !IsDistinct(hands) then Failure(DuplicateHands)
    else if cs == [] then Success(map[])
    else Success(Shares(hands, drawn, cs))
  }

  /** The points of the completions `cs`, divided by their total. */
  function Shares(hands: seq<Hand<Rank>>, drawn: seq<Card<Rank>>, cs: seq<seq<Card<Rank>>>): map<Hand<Rank>, real>
    requires hands != [] && IsDistinct(hands) && cs != []
  {
    var win := TieWinners(hands, drawn);
    var points := Tally(win, cs);
    TieWinnersValid(hands, drawn);
    TallyFacts(hands, win, cs);
    Normalized(points, SumOver(hands, points))
  }

  /**
   * `Determine`: validation, the unseen pool, a loop over the completions
   * crediting their winners, the total of the points, and the division.
   */
  method Determine(hands: seq<Hand<Rank>>, drawn: seq<Card<Rank>>, flopped: seq<Card<Rank>>)
    returns (r: Result<map<Hand<Rank>, real>, OddsError>)
    ensures r == OddsOf(hands, drawn, flopped)
  {
    var checked := Check(hands, drawn);
    if checked.Fail? {
      return Failure(checked.error);
    }
    var completions := Completions(hands, drawn, flopped);
    if completions != [] && !IsDistinct(hands) {
      return Failure(DuplicateHands);
    }
    var points := TallyCompletions(hands, drawn, completions);
    if completions == [] {
      return Success(map[]);
    }
    TieWinnersValid(hands, drawn);
    TallyFacts(hands, TieWinners(hands, drawn), completions);
    var total := SumValues(hands, points);
    return Success(Normalized(points, total));
  }

  /** The argument checks at the top of `Determine`. */
  method Check(hands: seq<Hand<Rank>>, drawn: seq<Card<Rank>>) returns (o: Outcome<OddsError>)
    ensures o == Validate(hands, drawn)
    ensures o == Fail(TooFewHands) <==> |hands| < 2
    ensures o == Fail(HoleCardsNotTwo) <==> |hands| >= 2 && exists h :: h in hands && Count(h) != 2
    ensures o == Fail(BadCommunityCount) <==>
      |hands| >= 2 && (forall h :: h in hands ==> Count(h) == 2) && |drawn| !in {0, 3, 4}
    ensures o == Pass <==> |hands| >= 2 && (forall h :: h in hands ==> Count(h) == 2) && |drawn| in {0, 3, 4}
  {
    if |hands| < 2 {
      return Fail(TooFewHands);
    }
    if exists h :: h in hands && Count(h) != 2 {
      return Fail(HoleCardsNotTwo);
    }
    if |drawn| !in {0, 3, 4} {
      return Fail(BadCommunityCount);
    }
    return Pass;
  }

  /** The loop over the completions, each crediting its winners. */
  method TallyCompletions(hands: seq<Hand<Rank>>, drawn: seq<Card<Rank>>, completions: seq<seq<Card<Rank>>>)
    returns (points: map<Hand<Rank>, real>)
    ensures points == Tally(TieWinners(hands, drawn), completions)
  {
    ghost var win := TieWinners(hands, drawn);
    points := map[];
    var i := 0;
    while i < |completions|
      invariant 0 <= i <= |completions|
      invariant points == Tally(win, completions[..i])
    {
      var next := completions[i];
      var winners := WinnersFor(hands, drawn, next);
      assert completions[..i + 1][..i] == completions[..i];
      points := CreditWinners(points, winners);
      i := i + 1;
    }
    assert completions[..i] == completions;
  }

  /** The crediting of one completion's winners (the body of the parallel loop). */
  method CreditWinners(points: map<Hand<Rank>, real>, winners: seq<Hand<Rank>>) returns (r: map<Hand<Rank>, real>)
    ensures r == Credit(points, winners)
  {
    if |winners| == 1 {
      return AddTo(points, winners[0], 1.0);
    }
    r := points;
    if winners != [] {
      var gain := 1.0 / (|winners| as real);
      var j := 0;
      while j < |winners|
        invariant 0 <= j <= |winners|
        invariant r == CreditEach(points, winners[..j], gain)
      {
        assert winners[..j + 1][..j] == winners[..j];
        r := AddTo(r, winners[j], gain);
        j := j + 1;
      }
      assert winners[..j] == winners;
    }
  }

  /** `points.Values.Sum()`: the values are summed one key at a time. */
  method SumValues(hands: seq<Hand<Rank>>, points: map<Hand<Rank>, real>) returns (total: real)
    requires IsDistinct(hands) && forall h :: h in points ==> h in hands
    ensures total == SumOver(hands, points)
  {
    SumInKeys(hands, points);
    total := 0.0;
    var keys := points.Keys;
    while keys != {}
      invariant keys <= points.Keys
      invariant total + SumIn(hands, points, keys) == SumOver(hands, points)
      decreases keys
    {
      var k :| k in keys;
      SumInRemove(hands, points, keys, k);
      total := total + points[k];
      keys := keys - {k};
    }
    SumInEmpty(hands, points);
  }

  /** The points of those of `hs` that belong to `keys`. */
  ghost function SumIn(hs: seq<Hand<Rank>>, m: map<Hand<Rank>, real>, keys: set<Hand<Rank>>): real
  {
    if hs == [] then 0.0 else SumIn(hs[..|hs| - 1], m, keys) + (if hs[|hs| - 1] in keys then Get(m, hs[|hs| - 1]) else 0.0)
  }

  lemma {:induction false} SumInRemove(hs: seq<Hand<Rank>>, m: map<Hand<Rank>, real>, keys: set<Hand<Rank>>, k: Hand<Rank>)
    requires IsDistinct(hs) && k in keys && k in hs
    ensures SumIn(hs, m, keys) == Get(m, k) + SumIn(hs, m, keys - {k})
  {
    var front, last := hs[..|hs| - 1], hs[|hs| - 1];
    FrontDistinct(hs);
    assert hs == front + [last];
    if k == last {
      SumInWithout(front, m, keys, k);
    } else {
      assert k in front;
      SumInRemove(front, m, keys, k);
    }
  }

  lemma {:induction false} SumInWithout(hs: seq<Hand<Rank>>, m: map<Hand<Rank>, real>, keys: set<Hand<Rank>>, k: Hand<Rank>)
    requires k !in hs
    ensures SumIn(hs, m, keys) == SumIn(hs, m, keys - {k})
  {
    if hs != [] {
      assert hs[|hs| - 1] in hs;
      assert forall i :: 0 <= i < |hs| - 1 ==> hs[..|hs| - 1][i] == hs[i];
      SumInWithout(hs[..|hs| - 1], m, keys, k);
    }
  }

  /** Summing over every key of the map is summing over the players. */
  lemma {:induction false} SumInKeys(hs: seq<Hand<Rank>>, m: map<Hand<Rank>, real>)
    ensures SumIn(hs, m, m.Keys) == SumOver(hs, m)
  {
    if hs != [] {
      SumInKeys(hs[..|hs| - 1], m);
    }
  }

  lemma {:induction false} SumInEmpty(hs: seq<Hand<Rank>>, m: map<Hand<Rank>, real>)
    ensures SumIn(hs, m, {}) == 0.0
  {
    if hs != [] {
      SumInEmpty(hs[..|hs| - 1], m);
    }
  }

  //
  // What the result means
  //

  /** The unseen cards are the standard cards held by nobody, not on the board and not flopped, each once. */
  lemma PoolMembership(hands: seq<Hand<Rank>>, drawn: seq<Card<Rank>>, flopped: seq<Card<Rank>>, x: Card<Rank>)
    ensures IsDistinct(Pool(hands, drawn, flopped))
    ensures x in Pool(hands, drawn, flopped) <==>
      && x in StandardCards()
      && (forall h :: h in hands ==> x !in h.cards)
      && x !in drawn
      && x !in flopped
  {
    var held := Select(hands, HandCards);
    FlattenMembership(held, x);
    if exists i :: 0 <= i < |held| && x in held[i] {
      var i :| 0 <= i < |held| && x in held[i];
      assert hands[i] in hands && x in hands[i].cards;
    }
    if exists h :: h in hands && x in h.cards {
      var h :| h in hands && x in h.cards;
      var i :| 0 <= i < |hands| && hands[i] == h;
      assert x in held[i];
    }
  }

  /**
   * The completions are exactly the ways to choose the missing community
   * cards from the unseen ones, in pool order, and there are C(n, k) of them.
   */
  lemma CompletionsShape(hands: seq<Hand<Rank>>, drawn: seq<Card<Rank>>, flopped: seq<Card<Rank>>, c: seq<Card<Rank>>)
    requires |drawn| <= 5
    ensures |Completions(hands, drawn, flopped)| == Choose(|Pool(hands, drawn, flopped)|, 5 - |drawn|)
    ensures c in Completions(hands, drawn, flopped) <==> |c| == 5 - |drawn| && IsSubsequence(c, Pool(hands, drawn, flopped))
  {
    CombinationsCount(Pool(hands, drawn, flopped), 5 - |drawn|);
    CombinationsMembership(Pool(hands, drawn, flopped), 5 - |drawn|, c);
  }

  /** Which error is reported, in the order the checks are made. */
  lemma OddsErrors(hands: seq<Hand<Rank>>, drawn: seq<Card<Rank>>, flopped: seq<Card<Rank>>)
    ensures OddsOf(hands, drawn, flopped) == Failure(TooFewHands) <==> |hands| < 2
    ensures OddsOf(hands, drawn, flopped) == Failure(HoleCardsNotTwo) <==>
      |hands| >= 2 && exists h :: h in hands && Count(h) != 2
    ensures OddsOf(hands, drawn, flopped) == Failure(BadCommunityCount) <==>
      |hands| >= 2 && (forall h :: h in hands ==> Count(h) == 2) && |drawn| !in {0, 3, 4}
    ensures OddsOf(hands, drawn, flopped) == Failure(DuplicateHands) <==>
      && Validate(hands, drawn) == Pass
      && Completions(hands, drawn, flopped) != []
      && !IsDistinct(hands)
  {
  }

  /**
   * Dividing the points by their total gives each winner its shares over
   * the number of completions, a value in (0, 1], and the values add up to 1.
   */
  lemma NormalizedTally(hands: seq<Hand<Rank>>, win: WinnerChoice, cs: seq<seq<Card<Rank>>>)
    requires IsDistinct(hands) && ValidWinners(hands, win) && cs != []
    ensures SumOver(hands, Tally(win, cs)) == |cs| as real
    ensures Normalized(Tally(win, cs), |cs| as real) != map[]
    ensures SumOver(hands, Normalized(Tally(win, cs), |cs| as real)) == 1.0
    ensures forall h :: h in Normalized(Tally(win, cs), |cs| as real) <==> WinsSome(win, cs, h)
    ensures forall h :: h in Normalized(Tally(win, cs), |cs| as real) ==>
      var v := Normalized(Tally(win, cs), |cs| as real)[h];
      h in hands && 0.0 < v <= 1.0 && v == SumShares(win, cs, h) / (|cs| as real)
  {
    var n := |cs| as real;
    var t := Tally(win, cs);
    TallyFacts(hands, win, cs);
    var m := Normalized(t, n);
    SumOverNormalized(hands, t, n);
    Fraction(n, n);
    forall h ensures (h in m <==> WinsSome(win, cs, h)) && (h in m ==> h in hands && 0.0 < m[h] <= 1.0 && m[h] == SumShares(win, cs, h) / n) {
      TallyPointwise(hands, win, cs, h);
      if h in m {
        Fraction(t[h], n);
      }
    }
    ValidAt(hands, win, cs[0]);
    var w := win(cs[0]);
    TallyPointwise(hands, win, cs, w[0]);
    assert w[0] in t;
  }

  /**
   * A successful result gives each player the share of the completions it
   * wins: it names only players, exactly those that win some completion;
   * each value is the player's shares divided by the number of completions,
   * lies in (0, 1], and the values add up to 1. The result is empty exactly
   * when there are no completions.
   */
  lemma OddsValues(hands: seq<Hand<Rank>>, drawn: seq<Card<Rank>>, flopped: seq<Card<Rank>>)
    requires OddsOf(hands, drawn, flopped).Success?
    ensures var m, cs, win := OddsOf(hands, drawn, flopped).value, Completions(hands, drawn, flopped), TieWinners(hands, drawn);
      && (m == map[] <==> cs == [])
      && (cs != [] ==> SumOver(hands, m) == 1.0)
      && (forall h :: h in m <==> WinsSome(win, cs, h))
      && (forall h :: h in m ==> h in hands && 0.0 < m[h] <= 1.0 && m[h] == SumShares(win, cs, h) / (|cs| as real))
  {
    var cs := Completions(hands, drawn, flopped);
    if cs != [] {
      TieWinnersValid(hands, drawn);
      NormalizedTally(hands, TieWinners(hands, drawn), cs);
      assert OddsOf(hands, drawn, flopped).value == Shares(hands, drawn, cs);
    }
  }

  lemma Fraction(a: real, n: real)
    requires 0.0 < a <= n
    ensures 0.0 < a / n <= 1.0
    ensures a == n ==> a / n == 1.0
  {
  }

  //
  // As written: ties are never split
  //

  /**
   * The winners as the source computes them. `HandStrength` is a struct
   * whose default equality compares its kicker lists by reference, and
   * every player's strength has its own list, so only the player whose
   * strength `Max` returned, the first best one, is found equal to it.
   */
  function WinnersAsWritten(hands: seq<Hand<Rank>>, drawn: seq<Card<Rank>>, next: seq<Card<Rank>>): (ws: seq<Hand<Rank>>)
    requires hands != []
  {
    [hands[MaxIndex(StrengthsOf(hands, drawn, next))]]
  }

  /**
   * When two distinct players both have the best hand, the corrected winners hold both and so share the point, while the
   * winners as written hold one player only, who takes it all.
   */
  lemma TiesAreNotSplit(hands: seq<Hand<Rank>>, drawn: seq<Card<Rank>>, next: seq<Card<Rank>>, i: nat, j: nat)
    requires i < |hands| && j < |hands| && hands[i] != hands[j]
    requires var ss := StrengthsOf(hands, drawn, next); ss[i] == MaxStrength(ss) && ss[j] == MaxStrength(ss)
    ensures |WinnersAsWritten(hands, drawn, next)| == 1
    ensures hands[i] in WinnersFor(hands, drawn, next) && hands[j] in WinnersFor(hands, drawn, next)
    ensures |WinnersFor(hands, drawn, next)| >= 2
  {
    var ss := StrengthsOf(hands, drawn, next);
    KeepMembers(hands, ss, MaxStrength(ss));
    var ws := WinnersFor(hands, drawn, next);
    assert hands[i] in ws && hands[j] in ws;
    TwoMembers(ws, hands[i], hands[j]);
  }

  lemma TwoMembers<T>(s: seq<T>, a: T, b: T)
    requires a in s && b in s && a != b
    ensures |s| >= 2
  {
    var p :| 0 <= p < |s| && s[p] == a;
    var q :| 0 <= q < |s| && s[q] == b;
    assert p != q;
  }

  /** The winners as written also always name exactly one player, so the crediting facts apply to them. */
  lemma AsWrittenValid(hands: seq<Hand<Rank>>, drawn: seq<Card<Rank>>)
    requires hands != []
    ensures ValidWinners(hands, (next: seq<Card<Rank>>) => WinnersAsWritten(hands, drawn, next))
  {
    forall c ensures var w := WinnersAsWritten(hands, drawn, c); w != [] && IsDistinct(w) && forall x :: x in w ==> x in hands {
      var ss := StrengthsOf(hands, drawn, c);
      MaxIsMaximal(ss);
    }
  }

  /** The winners as written, as a choice of winners for each completion. */
  function AsWrittenWinners(hands: seq<Hand<Rank>>, drawn: seq<Card<Rank>>): WinnerChoice
    requires hands != []
  {
    (next: seq<Card<Rank>>) => WinnersAsWritten(hands, drawn, next)
  }

  /** `Determine` as written: the same checks, but each completion's point goes to the one player `Max` returned. */
  function OddsAsWritten(hands: seq<Hand<Rank>>, drawn: seq<Card<Rank>>, flopped: seq<Card<Rank>>): (r: Result<map<Hand<Rank>, real>, OddsError>)
  {
    match Validate(hands, drawn)
    case Fail(e) => Failure(e)
    case Pass =>
      var cs := Completions(hands, drawn, flopped);
      if cs != [] && !IsDistinct(hands) then Failure(DuplicateHands)
      else if cs == [] then Success(map[])
      else
        var win := AsWrittenWinners(hands, drawn);
        AsWrittenValid(hands, drawn);
        TallyFacts(hands, win, cs);
        Success(Normalized(Tally(win, cs), SumOver(hands, Tally(win, cs))))
  }

  /**
   * The code as written fails exactly when the corrected odds fail, with the
   * same error, and otherwise also gives values in (0, 1] that add up to 1,
   * but only to players who are the first best player of some completion.
   */
  lemma AsWrittenOdds(hands: seq<Hand<Rank>>, drawn: seq<Card<Rank>>, flopped: seq<Card<Rank>>)
    ensures OddsAsWritten(hands, drawn, flopped).Failure? <==> OddsOf(hands, drawn, flopped).Failure?
    ensures OddsAsWritten(hands, drawn, flopped).Failure? ==>
      OddsAsWritten(hands, drawn, flopped).error == OddsOf(hands, drawn, flopped).error
    ensures OddsAsWritten(hands, drawn, flopped).Success? ==>
      var m, cs := OddsAsWritten(hands, drawn, flopped).value, Completions(hands, drawn, flopped);
      && (m == map[] <==> cs == [])
      && (cs != [] ==> SumOver(hands, m) == 1.0)
      && (forall h :: h in m <==> WinsSome(AsWrittenWinners(hands, drawn), cs, h))
      && (forall h :: h in m ==> h in hands && 0.0 < m[h] <= 1.0)
  {
    var cs := Completions(hands, drawn, flopped);
    if Validate(hands, drawn) == Pass && cs != [] && IsDistinct(hands) {
      AsWrittenValid(hands, drawn);
      NormalizedTally(hands, AsWrittenWinners(hands, drawn), cs);
    }
  }
}
