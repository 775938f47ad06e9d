/**
 * The recursive generators of LinqExtensions: cross-product, subsets,
 * permutations, k-combinations and k-arrangements. Every generator yields
 * a finite sequence of sequences; the lemmas count the results and say
 * exactly which sequences occur.
 */
module Combinatorics {

  /** `tails.Select(tail => tail.Prepend(head))` */
  function PrependEach<T>(head: T, tails: seq<seq<T>>): (r: seq<seq<T>>)
    ensures |r| == |tails|
    ensures forall i :: 0 <= i < |r| ==> r[i] == [head] + tails[i]
  {
    if tails == [] then [] else [[head] + tails[0]] + PrependEach(head, tails[1..])
  }

  lemma {:induction false} PrependEachMembership<T>(head: T, tails: seq<seq<T>>, x: seq<T>)
    ensures x in PrependEach(head, tails) <==> |x| > 0 && x[0] == head && x[1..] in tails
  {
    if tails != [] {
      PrependEachMembership(head, tails[1..], x);
      assert ([head] + tails[0])[1..] == tails[0];
      assert tails == [tails[0]] + tails[1..];
      if |x| > 0 && x[0] == head && x[1..] == tails[0] {
        assert x == [head] + tails[0];
      }
    }
  }

  //
  // CrossProduct
  //

  /** The product of the lengths of `sets`. */
  function Product<T>(sets: seq<seq<T>>): nat
  {
    if sets == [] then 1 else |sets[0]| * Product(sets[1..])
  }

  /** `foreach (var element in elements) foreach (var tail in tails) yield return tail.Prepend(element);` */
  function PrependEachOf<T>(elements: seq<T>, tails: seq<seq<T>>): (r: seq<seq<T>>)
  {
    if elements == [] then [] else PrependEach(elements[0], tails) + PrependEachOf(elements[1..], tails)
  }

  /**
   * The Cartesian product of `sets`, element-major: one result (the empty
   * sequence) for no sets, otherwise every element of the first set in front
   * of every result for the remaining sets.
   */
  function CrossProduct<T>(sets: seq<seq<T>>): (r: seq<seq<T>>)
  {
    if sets == [] then [[]] else PrependEachOf(sets[0], CrossProduct(sets[1..]))
  }

  lemma {:induction false} PrependEachOfCount<T>(elements: seq<T>, tails: seq<seq<T>>)
    ensures |PrependEachOf(elements, tails)| == |elements| * |tails|
  {
    if elements != [] {
      PrependEachOfCount(elements[1..], tails);
    }
  }

  lemma {:induction false} PrependEachOfMembership<T>(elements: seq<T>, tails: seq<seq<T>>, x: seq<T>)
    ensures x in PrependEachOf(elements, tails) <==> |x| > 0 && x[0] in elements && x[1..] in tails
  {
    if elements != [] {
      PrependEachMembership(elements[0], tails, x);
      PrependEachOfMembership(elements[1..], tails, x);
      assert elements == [elements[0]] + elements[1..];
    }
  }

  /** The number of results is the product of the set sizes (1 for no sets). */
  lemma {:induction false} CrossProductCount<T>(sets: seq<seq<T>>)
    ensures |CrossProduct(sets)| == Product(sets)
  {
    if sets != [] {
      CrossProductCount(sets[1..]);
      PrependEachOfCount(sets[0], CrossProduct(sets[1..]));
    }
  }

  /** The results are exactly the sequences that take element i from set i. */
  lemma {:induction false} CrossProductMembership<T>(sets: seq<seq<T>>, x: seq<T>)
    ensures x in CrossProduct(sets) <==> |x| == |sets| && forall i :: 0 <= i < |x| ==> x[i] in sets[i]
  {
    if sets == [] {
    } else {
      PrependEachOfMembership(sets[0], CrossProduct(sets[1..]), x);
      if |x| > 0 {
        CrossProductMembership(sets[1..], x[1..]);
        if |x| == |sets| && forall i :: 0 <= i < |x| ==> x[i] in sets[i] {
          forall i | 0 <= i < |x[1..]| ensures x[1..][i] in sets[1..][i] {
            assert x[1..][i] == x[i + 1];
          }
        }
        if x in CrossProduct(sets) {
          forall i | 0 <= i < |x| ensures x[i] in sets[i] {
            if i > 0 { assert x[i] == x[1..][i - 1]; }
          }
        }
      }
    }
  }

  //
  // Subsets
  //

  function Pow2(n: nat): nat
  {
    if n == 0 then 1 else 2 * Pow2(n - 1)
  }

  /** `x` is `s` with some of its elements left out (order kept). */
  predicate IsSubsequence<T(==)>(x: seq<T>, s: seq<T>)
  {
    if x == [] then true
    else if s == [] then false
    else (x[0] == s[0] && IsSubsequence(x[1..], s[1..])) || IsSubsequence(x, s[1..])
  }

  /**
   * All subsets of `s` as order-preserving subsequences: those of the tail,
   * followed by the same ones with the head in front.
   */
  function Subsets<T>(s: seq<T>): (r: seq<seq<T>>)
  {
    if s == [] then [[]]
    else
      var subsets := Subsets(s[1..]);
      subsets + PrependEach(s[0], subsets)
  }

  lemma {:induction false} SubsetsCount<T>(s: seq<T>)
    ensures |Subsets(s)| == Pow2(|s|)
  {
    if s != [] {
      SubsetsCount(s[1..]);
    }
  }

  /** The members of `Subsets(s)` are exactly the subsequences of `s`. */
  lemma {:induction false} SubsetsMembership<T>(s: seq<T>, x: seq<T>)
    ensures x in Subsets(s) <==> IsSubsequence(x, s)
  {
    if s != [] {
      var subsets := Subsets(s[1..]);
      PrependEachMembership(s[0], subsets, x);
      SubsetsMembership(s[1..], x);
      if |x| > 0 {
        SubsetsMembership(s[1..], x[1..]);
      } else {
        assert x in subsets by { EmptySubsequence(s[1..]); SubsetsMembership(s[1..], x); }
      }
    }
  }

  lemma EmptySubsequence<T>(s: seq<T>)
    ensures IsSubsequence([], s)
  {
  }

  lemma {:induction false} WholeSubsequence<T>(s: seq<T>)
    ensures IsSubsequence(s, s)
  {
    if s != [] {
      WholeSubsequence(s[1..]);
    }
  }

  /** Both the empty sequence and the whole input are among the subsets. */
  lemma SubsetsContainEmptyAndWhole<T>(s: seq<T>)
    ensures [] in Subsets(s) && s in Subsets(s)
  {
    SubsetsMembership(s, []);
    SubsetsMembership(s, s);
    WholeSubsequence(s);
  }

  /** A subsequence takes each element at most as often as the sequence has it. */
  lemma {:induction false} SubsequenceMultiset<T>(x: seq<T>, s: seq<T>)
    requires IsSubsequence(x, s)
    ensures |x| <= |s| && multiset(x) <= multiset(s)
  {
    if x != [] {
      assert s == [s[0]] + s[1..];
      if x[0] == s[0] && IsSubsequence(x[1..], s[1..]) {
        SubsequenceMultiset(x[1..], s[1..]);
        assert x == [x[0]] + x[1..];
      } else {
        SubsequenceMultiset(x, s[1..]);
      }
    }
  }

  //
  // Permutate
  //

  function Factorial(n: nat): nat
  {
    if n == 0 then 1 else n * Factorial(n - 1)
  }

  /** `s` without its element at index `i`. */
  function RemoveAt<T>(s: seq<T>, i: nat): (r: seq<T>)
    requires i < |s|
  {
    s[..i] + s[i + 1..]
  }

  lemma RemoveAtMultiset<T>(s: seq<T>, i: nat)
    requires i < |s|
    ensures multiset(RemoveAt(s, i)) == multiset(s) - multiset{s[i]}
    ensures |RemoveAt(s, i)| == |s| - 1
  {
    assert s == s[..i] + [s[i]] + s[i + 1..];
  }

  /**
   * The local function `permutate(remainder, prefix)`: `prefix` followed by
   * every ordering of `remainder`, choosing the next element by index.
   */
  function Permutations<T>(remainder: seq<T>, prefix: seq<T>): (r: seq<seq<T>>)
    decreases |remainder|, 1, 0
  {
    if remainder == [] then [prefix] else PermutationsFrom(remainder, prefix, 0)
  }

  /** `remainder.SelectMany((c, i) => permutate(remainder without i, prefix.Append(c)))` from index `i` on. */
  function PermutationsFrom<T>(remainder: seq<T>, prefix: seq<T>, i: nat): (r: seq<seq<T>>)
    requires i <= |remainder|
    decreases |remainder|, 0, |remainder| - i
  {
    if i == |remainder| then []
    else Permutations(RemoveAt(remainder, i), prefix + [remainder[i]]) + PermutationsFrom(remainder, prefix, i + 1)
  }

  /** `source.Permutate()` */
  function Permutate<T>(s: seq<T>): (r: seq<seq<T>>)
  {
    Permutations(s, [])
  }

  lemma {:induction false} PermutationsCount<T>(remainder: seq<T>, prefix: seq<T>)
    ensures |Permutations(remainder, prefix)| == Factorial(|remainder|)
    decreases |remainder|, 1, 0
  {
    if remainder != [] {
      PermutationsFromCount(remainder, prefix, 0);
    }
  }

  lemma {:induction false} PermutationsFromCount<T>(remainder: seq<T>, prefix: seq<T>, i: nat)
    requires i <= |remainder| && remainder != []
    ensures |PermutationsFrom(remainder, prefix, i)| == (|remainder| - i) * Factorial(|remainder| - 1)
    decreases |remainder|, 0, |remainder| - i
  {
    if i < |remainder| {
      var here := Permutations(RemoveAt(remainder, i), prefix + [remainder[i]]);
      var later := PermutationsFrom(remainder, prefix, i + 1);
      PermutationsCount(RemoveAt(remainder, i), prefix + [remainder[i]]);
      PermutationsFromCount(remainder, prefix, i + 1);
      var f := Factorial(|remainder| - 1);
      assert |RemoveAt(remainder, i)| == |remainder| - 1;
      assert |PermutationsFrom(remainder, prefix, i)| == |here| + |later|;
      MulStep(|remainder| - i, f);
    }
  }

  lemma {:induction false} PermutationsFromMembership<T>(remainder: seq<T>, prefix: seq<T>, i: nat, x: seq<T>)
    requires i <= |remainder|
    ensures x in PermutationsFrom(remainder, prefix, i)
        <==> exists j :: i <= j < |remainder| && x in Permutations(RemoveAt(remainder, j), prefix + [remainder[j]])
    decreases |remainder| - i
  {
    if i < |remainder| {
      PermutationsFromMembership(remainder, prefix, i + 1, x);
    }
  }

  /** Every result extends `prefix` by a rearrangement of `remainder`. */
  lemma {:induction false} PermutationsSound<T>(remainder: seq<T>, prefix: seq<T>, x: seq<T>)
    requires x in Permutations(remainder, prefix)
    ensures |x| == |prefix| + |remainder| && x[..|prefix|] == prefix && multiset(x[|prefix|..]) == multiset(remainder)
    decreases |remainder|
  {
    var n := |prefix|;
    if remainder != [] {
      PermutationsFromMembership(remainder, prefix, 0, x);
      var j :| 0 <= j < |remainder| && x in Permutations(RemoveAt(remainder, j), prefix + [remainder[j]]);
      var c, rest := remainder[j], RemoveAt(remainder, j);
      PermutationsSound(rest, prefix + [c], x);
      ExtendPrefix(x, prefix, c, multiset(rest));
      RemoveAtMultiset(remainder, j);
      assert multiset{c} + multiset(rest) == multiset(remainder);
    }
  }

  lemma ExtendPrefix<T>(x: seq<T>, prefix: seq<T>, c: T, m: multiset<T>)
    requires |x| > |prefix| && x[..|prefix| + 1] == prefix + [c] && multiset(x[|prefix| + 1..]) == m
    ensures x[..|prefix|] == prefix && multiset(x[|prefix|..]) == multiset{c} + m
  {
    var n := |prefix|;
    assert x[..n] == x[..n + 1][..n];
    assert x[n..] == [x[n]] + x[n + 1..];
    assert x[n] == x[..n + 1][n];
  }

  /** Every extension of `prefix` by a rearrangement of `remainder` is a result. */
  lemma {:induction false} PermutationsComplete<T>(remainder: seq<T>, prefix: seq<T>, x: seq<T>)
    requires |x| == |prefix| + |remainder| && x[..|prefix|] == prefix && multiset(x[|prefix|..]) == multiset(remainder)
    ensures x in Permutations(remainder, prefix)
    decreases |remainder|
  {
    var n := |prefix|;
    if remainder == [] {
      assert x == x[..n];
    } else {
      var c := x[n];
      assert x[n..] == [c] + x[n + 1..];
      assert c in multiset(remainder);
      var j :| 0 <= j < |remainder| && remainder[j] == c;
      RemoveAtMultiset(remainder, j);
      assert x[..n + 1] == prefix + [c];
      PermutationsComplete(RemoveAt(remainder, j), prefix + [c], x);
      PermutationsFromMembership(remainder, prefix, 0, x);
    }
  }

  /** `Permutate(s)` has |s|! results (one, the empty sequence, for no elements). */
  lemma PermutateCount<T>(s: seq<T>)
    ensures |Permutate(s)| == Factorial(|s|)
  {
    PermutationsCount(s, []);
  }

  /** The results of `Permutate(s)` are exactly the rearrangements of `s`. */
  lemma PermutateMembership<T>(s: seq<T>, x: seq<T>)
    ensures x in Permutate(s) <==> multiset(x) == multiset(s)
  {
    assert x[0..] == x && x[..0] == [];
    if x in Permutate(s) {
      PermutationsSound(s, [], x);
    }
    if multiset(x) == multiset(s) {
      assert |x| == |multiset(x)| == |multiset(s)| == |s|;
      PermutationsComplete(s, [], x);
    }
  }

  //
  // Combinations
  //

  function Choose(n: nat, k: nat): nat
  {
    if k == 0 then 1 else if n == 0 then 0 else Choose(n - 1, k - 1) + Choose(n - 1, k)
  }

  /**
   * `source.Combinations(count)`: one empty result for count 0; otherwise,
   * for every index, that element in front of each (count - 1)-combination of
   * what follows it. A negative count never reaches 0 and yields nothing.
   */
  function Combinations<T>(s: seq<T>, count: int): (r: seq<seq<T>>)
    decreases |s|, 1, 0
  {
    if count == 0 then [[]] else CombinationsFrom(s, count, 0)
  }

  /** `source.SelectMany((x, index) => source.Skip(index + 1).Combinations(count - 1).Select(c => c.Prepend(x)))` from `i` on. */
  function CombinationsFrom<T>(s: seq<T>, count: int, i: nat): (r: seq<seq<T>>)
    requires i <= |s|
    decreases |s|, 0, |s| - i
  {
    if i == |s| then []
    else PrependEach(s[i], Combinations(s[i + 1..], count - 1)) + CombinationsFrom(s, count, i + 1)
  }

  lemma {:induction false} CombinationsFromShift<T>(s: seq<T>, count: int, i: nat)
    requires 1 <= i <= |s|
    ensures CombinationsFrom(s, count, i) == CombinationsFrom(s[1..], count, i - 1)
    decreases |s| - i
  {
    if i < |s| {
      assert s[i] == s[1..][i - 1];
      assert s[i + 1..] == s[1..][i..];
      CombinationsFromShift(s, count, i + 1);
    }
  }

  /** Pascal's rule: the combinations that take the head, then those that do not. */
  lemma CombinationsPascal<T>(s: seq<T>, count: int)
    requires count != 0 && s != []
    ensures Combinations(s, count) == PrependEach(s[0], Combinations(s[1..], count - 1)) + Combinations(s[1..], count)
  {
    CombinationsFromShift(s, count, 1);
    assert s[1..] == s[0 + 1..];
  }

  /** C(n, k) results for k >= 0, none for a negative count. */
  lemma {:induction false} CombinationsCount<T>(s: seq<T>, count: int)
    ensures count >= 0 ==> |Combinations(s, count)| == Choose(|s|, count)
    ensures count < 0 ==> Combinations(s, count) == []
  {
    if count != 0 {
      if s == [] {
      } else {
        CombinationsPascal(s, count);
        CombinationsCount(s[1..], count - 1);
        CombinationsCount(s[1..], count);
      }
    }
  }

  lemma {:induction false} ChooseAbove(n: nat, k: nat)
    requires k > n
    ensures Choose(n, k) == 0
  {
    if n > 0 {
      ChooseAbove(n - 1, k - 1);
      ChooseAbove(n - 1, k);
    }
  }

  /** There is no k-combination of fewer than k elements. */
  lemma CombinationsAbove<T>(s: seq<T>, count: int)
    requires count > |s|
    ensures Combinations(s, count) == []
  {
    CombinationsCount(s, count);
    ChooseAbove(|s|, count);
  }

  /** The k-combinations are exactly the subsequences of length k. */
  lemma {:induction false} CombinationsMembership<T>(s: seq<T>, count: int, x: seq<T>)
    requires count >= 0
    ensures x in Combinations(s, count) <==> |x| == count && IsSubsequence(x, s)
  {
    if count != 0 && s != [] {
      CombinationsPascal(s, count);
      PrependEachMembership(s[0], Combinations(s[1..], count - 1), x);
      CombinationsMembership(s[1..], count, x);
      if |x| > 0 {
        CombinationsMembership(s[1..], count - 1, x[1..]);
      }
    }
  }

  //
  // Arrangements
  //

  /** `combinations.SelectMany(combination => combination.Permutate())` */
  function PermutateEach<T>(combinations: seq<seq<T>>): (r: seq<seq<T>>)
  {
    if combinations == [] then [] else Permutate(combinations[0]) + PermutateEach(combinations[1..])
  }

  /** `source.Arrangements(count)`: the permutations of every count-combination. */
  function Arrangements<T>(s: seq<T>, count: int): (r: seq<seq<T>>)
  {
    PermutateEach(Combinations(s, count))
  }

  lemma {:induction false} PermutateEachCount<T>(combinations: seq<seq<T>>, k: nat)
    requires forall i :: 0 <= i < |combinations| ==> |combinations[i]| == k
    ensures |PermutateEach(combinations)| == |combinations| * Factorial(k)
  {
    if combinations != [] {
      var head, tail := combinations[0], combinations[1..];
      assert forall i :: 0 <= i < |tail| ==> tail[i] == combinations[i + 1];
      PermutateCount(head);
      PermutateEachCount(tail, k);
      MulStep(|combinations|, Factorial(k));
    }
  }

  lemma MulStep(m: nat, f: nat)
    requires m > 0
    ensures f + (m - 1) * f == m * f
  {
  }

  lemma {:induction false} PermutateEachMembership<T>(combinations: seq<seq<T>>, x: seq<T>)
    ensures x in PermutateEach(combinations) <==> exists c :: c in combinations && multiset(x) == multiset(c)
  {
    if combinations != [] {
      var head, tail := combinations[0], combinations[1..];
      PermutateMembership(head, x);
      PermutateEachMembership(tail, x);
      assert combinations == [head] + tail;
      if exists c :: c in combinations && multiset(x) == multiset(c) {
        var c :| c in combinations && multiset(x) == multiset(c);
        if c != head {
          assert c in tail;
        }
      }
      if x in PermutateEach(tail) {
        var c :| c in tail && multiset(x) == multiset(c);
        assert c in combinations;
      }
      if x in Permutate(head) {
        assert head in combinations;
      }
    }
  }

  /** C(n, k) * k! results for k >= 0. */
  lemma ArrangementsCount<T>(s: seq<T>, count: nat)
    ensures |Arrangements(s, count)| == Choose(|s|, count) * Factorial(count)
  {
    CombinationsCount(s, count);
    var cs := Combinations(s, count);
    forall i | 0 <= i < |cs| ensures |cs[i]| == count {
      CombinationsMembership(s, count, cs[i]);
    }
    PermutateEachCount(Combinations(s, count), count);
  }

  /** The k-arrangements are exactly the rearrangements of the subsequences of length k. */
  lemma ArrangementsMembership<T>(s: seq<T>, count: nat, x: seq<T>)
    ensures x in Arrangements(s, count)
        <==> exists c :: IsSubsequence(c, s) && |c| == count && multiset(x) == multiset(c)
  {
    PermutateEachMembership(Combinations(s, count), x);
    if x in Arrangements(s, count) {
      var c :| c in Combinations(s, count) && multiset(x) == multiset(c);
      CombinationsMembership(s, count, c);
    }
    if exists c :: IsSubsequence(c, s) && |c| == count && multiset(x) == multiset(c) {
      var c :| IsSubsequence(c, s) && |c| == count && multiset(x) == multiset(c);
      CombinationsMembership(s, count, c);
    }
  }

  //
  // The cases listed in LinqExtensionsTests
  //

  lemma SubsetsOfTwo()
    ensures Subsets([1, 2]) == [[], [2], [1], [1, 2]]
  {
    var none: seq<int> := [];
    assert [2] + none == [2] && [1] + none == [1] && [1] + [2] == [1, 2];
    assert [2][1..] == none && [1, 2][1..] == [2];
    assert PrependEach(2, [none]) == [[2]];
    assert Subsets([2]) == [none, [2]];
    assert PrependEach(1, [none, [2]]) == [[1], [1, 2]];
  }

  lemma CrossProductOfTwo()
    ensures CrossProduct([[1, 2], [3, 4, 5]]) == [[1, 3], [1, 4], [1, 5], [2, 3], [2, 4], [2, 5]]
  {
    var tails := [[3], [4], [5]];
    CrossProductOfOne();
    assert [[1, 2], [3, 4, 5]][1..] == [[3, 4, 5]];
    PrependToTails(1);
    PrependToTails(2);
    assert [1, 2][1..] == [2] && [2][1..] == [];
    assert PrependEachOf([2], tails) == [[2, 3], [2, 4], [2, 5]];
  }

  lemma CrossProductOfOne()
    ensures CrossProduct([[3, 4, 5]]) == [[3], [4], [5]]
  {
    var none: seq<seq<int>> := [];
    var empty: seq<int> := [];
    assert [[3, 4, 5]][1..] == none;
    assert CrossProduct(none) == [empty];
    assert [3, 4, 5][1..] == [4, 5] && [4, 5][1..] == [5] && [5][1..] == [];
    assert [3] + empty == [3] && [4] + empty == [4] && [5] + empty == [5];
    assert PrependEachOf([5], [empty]) == [[5]];
    assert PrependEachOf([4, 5], [empty]) == [[4], [5]];
  }

  lemma PrependToTails(x: int)
    ensures PrependEach(x, [[3], [4], [5]]) == [[x, 3], [x, 4], [x, 5]]
  {
    assert [x] + [3] == [x, 3] && [x] + [4] == [x, 4] && [x] + [5] == [x, 5];
  }

  lemma CombinationsTwoOfThree()
    ensures Combinations([1, 2, 3], 2) == [[1, 2], [1, 3], [2, 3]]
  {
    var s := [1, 2, 3];
    assert s[1..] == [2, 3] && s[2..] == [3] && s[3..] == [];
    CombinationsOneOfTwo();
    CombinationsTwoFromSecond();
    assert PrependEach(1, [[2], [3]]) == [[1, 2], [1, 3]] by {
      assert [1] + [2] == [1, 2] && [1] + [3] == [1, 3];
    }
  }

  lemma CombinationsOneOfTwo()
    ensures Combinations([2, 3], 1) == [[2], [3]]
  {
    var none: seq<int> := [];
    assert [2, 3][1..] == [3] && [2, 3][2..] == none && [3][1..] == none;
    assert Combinations([3], 0) == [none] && Combinations(none, 0) == [none];
    assert [2] + none == [2] && [3] + none == [3];
    assert CombinationsFrom([2, 3], 1, 2) == [];
    assert CombinationsFrom([2, 3], 1, 1) == [[3]];
  }

  lemma CombinationsTwoFromSecond()
    ensures CombinationsFrom([1, 2, 3], 2, 1) == [[2, 3]]
  {
    var s := [1, 2, 3];
    var none: seq<int> := [];
    assert s[2..] == [3] && s[3..] == none && [3][1..] == none;
    assert Combinations(none, 1) == [];
    assert CombinationsFrom([3], 1, 1) == [];
    assert Combinations([3], 1) == [[3]] by {
      assert [3] + none == [3];
    }
    assert CombinationsFrom(s, 2, 3) == [];
    assert PrependEach(3, Combinations(none, 1)) == [];
    assert CombinationsFrom(s, 2, 2) == [];
    assert PrependEach(2, [[3]]) == [[2, 3]] by {
      assert [2] + [3] == [2, 3];
    }
  }
}
