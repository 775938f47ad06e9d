/**
 * The LINQ operators the poker library is built from, as functions over
 * finite sequences: a stable `OrderByDescending`, `Distinct`/`Except`/`Union`
 * (all written with a set of already-seen elements), `SelectMany` and counting.
 */
module Linq {

  /** `s.Select(f)` */
  function Select<A, B>(s: seq<A>, f: A -> B): (r: seq<B>)
    ensures |r| == |s| && forall i :: 0 <= i < |s| ==> r[i] == f(s[i])
  {
    seq(|s|, i requires 0 <= i < |s| => f(s[i]))
  }

  lemma SelectConcat<A, B>(a: seq<A>, b: seq<A>, f: A -> B)
    ensures Select(a + b, f) == Select(a, f) + Select(b, f)
  {
    assert forall i :: 0 <= i < |a + b| ==> Select(a + b, f)[i] == (Select(a, f) + Select(b, f))[i];
  }

  /** Removing the last of `cs` and a matching element of `ds` keeps the multisets equal. */
  lemma MultisetWithout<T>(cs: seq<T>, ds: seq<T>, k: nat)
    requires multiset(cs) == multiset(ds) && cs != [] && k < |ds| && ds[k] == cs[|cs| - 1]
    ensures multiset(cs[..|cs| - 1]) == multiset(ds[..k] + ds[k + 1..])
  {
    var front, last := cs[..|cs| - 1], cs[|cs| - 1];
    var rest := ds[..k] + ds[k + 1..];
    assert cs == front + [last];
    assert ds == ds[..k] + [last] + ds[k + 1..];
    assert multiset(ds) == multiset(rest) + multiset{last};
    assert multiset(cs) == multiset(front) + multiset{last};
    assert multiset(front) == multiset(cs) - multiset{last};
    assert multiset(rest) == multiset(ds) - multiset{last};
  }

  /** Projecting two permutations of each other gives permutations of each other. */
  lemma {:induction false} SelectPermutation<A, B>(s: seq<A>, t: seq<A>, f: A -> B)
    requires multiset(s) == multiset(t)
    ensures multiset(Select(s, f)) == multiset(Select(t, f))
    decreases |s|
  {
    if s == [] {
      assert |t| == |multiset(t)| == 0;
    } else {
      var front, last := s[..|s| - 1], s[|s| - 1];
      assert last in multiset(t);
      var k :| 0 <= k < |t| && t[k] == last;
      var rest := t[..k] + t[k + 1..];
      MultisetWithout(s, t, k);
      SelectPermutation(front, rest, f);
      assert s == front + [last];
      assert t == t[..k] + [last] + t[k + 1..];
      SelectConcat(front, [last], f);
      SelectConcat(t[..k] + [last], t[k + 1..], f);
      SelectConcat(t[..k], [last], f);
      SelectConcat(t[..k], t[k + 1..], f);
    }
  }

  /** `ss.SelectMany(s => s)`: the concatenation of the inner sequences. */
  function Flatten<T>(ss: seq<seq<T>>): (r: seq<T>)
  {
    if ss == [] then [] else ss[0] + Flatten(ss[1..])
  }

  lemma {:induction false} FlattenMembership<T>(ss: seq<seq<T>>, x: T)
    ensures x in Flatten(ss) <==> exists i :: 0 <= i < |ss| && x in ss[i]
  {
    if ss != [] {
      FlattenMembership(ss[1..], x);
      if x in Flatten(ss[1..]) {
        var i :| 0 <= i < |ss[1..]| && x in ss[1..][i];
        assert x in ss[i + 1];
      }
      if exists i :: 0 <= i < |ss| && x in ss[i] {
        var i :| 0 <= i < |ss| && x in ss[i];
        if i > 0 { assert x in ss[1..][i - 1]; }
      }
    }
  }

  lemma {:induction false} FlattenConcat<T>(a: seq<seq<T>>, b: seq<seq<T>>)
    ensures Flatten(a + b) == Flatten(a) + Flatten(b)
  {
    if a != [] {
      assert (a + b)[0] == a[0] && (a + b)[1..] == a[1..] + b;
      FlattenConcat(a[1..], b);
    } else {
      assert a + b == b;
    }
  }

  /** `s.Where(p)`: the elements satisfying `p`, in order. */
  function Where<T(!new)>(s: seq<T>, p: T -> bool): (r: seq<T>)
    ensures |r| <= |s|
    ensures forall x :: x in r <==> x in s && p(x)
  {
    if s == [] then [] else (if p(s[0]) then [s[0]] else []) + Where(s[1..], p)
  }

  predicate IsDistinct<T(==)>(s: seq<T>)
  {
    forall i, j :: 0 <= i < j < |s| ==> s[i] != s[j]
  }

  /** The number of occurrences of `x` in `s`. */
  function CountOf<T(==)>(s: seq<T>, x: T): (n: nat)
    ensures n <= |s|
    ensures n > 0 <==> x in s
  {
    if s == [] then 0 else (if s[0] == x then 1 else 0) + CountOf(s[1..], x)
  }

  lemma {:induction false} CountOfConcat<T>(a: seq<T>, b: seq<T>, x: T)
    ensures CountOf(a + b, x) == CountOf(a, x) + CountOf(b, x)
  {
    if a != [] {
      assert (a + b)[0] == a[0] && (a + b)[1..] == a[1..] + b;
      CountOfConcat(a[1..], b, x);
    } else {
      assert a + b == b;
    }
  }

  lemma {:induction false} CountOfDistinct<T>(s: seq<T>, x: T)
    requires IsDistinct(s) && x in s
    ensures CountOf(s, x) == 1
  {
    if s[0] == x {
      assert x !in s[1..] by {
        forall k | 0 <= k < |s[1..]| ensures s[1..][k] != x {
          assert s[1..][k] == s[k + 1];
        }
      }
    } else {
      CountOfDistinct(s[1..], x);
    }
  }

  /** In a duplicate-free sequence every element occurs at most once. */
  lemma {:induction false} DistinctMultiplicity<T>(s: seq<T>, x: T)
    requires IsDistinct(s)
    ensures multiset(s)[x] <= 1
  {
    if s != [] {
      assert s == [s[0]] + s[1..];
      DistinctMultiplicity(s[1..], x);
      if s[0] == x {
        assert x !in s[1..] by {
          forall k | 0 <= k < |s[1..]| ensures s[1..][k] != x {
            assert s[1..][k] == s[k + 1];
          }
        }
      }
    }
  }

  /** A permutation of a duplicate-free sequence is duplicate-free. */
  lemma PermutationDistinct<T>(s: seq<T>, t: seq<T>)
    requires IsDistinct(s) && multiset(s) == multiset(t)
    ensures IsDistinct(t)
  {
    forall i, j | 0 <= i < j < |t| ensures t[i] != t[j] {
      if t[i] == t[j] {
        var x := t[i];
        assert t == t[..j] + t[j..];
        assert x in t[..j] && x in t[j..];
        assert multiset(t)[x] == multiset(t[..j])[x] + multiset(t[j..])[x];
        DistinctMultiplicity(s, x);
        assert false;
      }
    }
  }

  /**
   * The elements of `s` that are not in `seen`, each at its first
   * occurrence. This is how .NET enumerates `s.Distinct()` (seen empty),
   * `s.Except(t)` (seen holding t's elements) and `s.Union(t)`
   * (as Distinct of the concatenation): an element is yielded when it can
   * still be added to the set of seen elements.
   */
  function DistinctExcept<T(==,!new)>(s: seq<T>, seen: set<T>): (r: seq<T>)
    ensures IsDistinct(r)
    ensures forall x :: x in r <==> x in s && x !in seen
    ensures |r| <= |s|
  {
    if s == [] then []
    else if s[0] in seen then DistinctExcept(s[1..], seen)
    else [s[0]] + DistinctExcept(s[1..], seen + {s[0]})
  }

  /** Duplicates are dropped across a concatenation as they are within each part. */
  lemma {:induction false} DistinctExceptConcat<T(!new)>(a: seq<T>, b: seq<T>, seen: set<T>)
    ensures DistinctExcept(a + b, seen) == DistinctExcept(a, seen) + DistinctExcept(b, seen + set x | x in a)
  {
    if a == [] {
      assert a + b == b;
      assert seen + (set x | x in a) == seen;
    } else {
      assert (a + b)[0] == a[0] && (a + b)[1..] == a[1..] + b;
      var tail := set x | x in a[1..];
      assert (set x | x in a) == {a[0]} + tail;
      if a[0] in seen {
        DistinctExceptConcat(a[1..], b, seen);
        assert seen + (set x | x in a) == seen + tail;
      } else {
        DistinctExceptConcat(a[1..], b, seen + {a[0]});
        assert seen + (set x | x in a) == seen + {a[0]} + tail;
      }
    }
  }

  /** The position of the first occurrence of `x` in `s`. */
  function FirstIndex<T(==)>(s: seq<T>, x: T): (i: nat)
    requires x in s
    ensures i < |s| && s[i] == x && x !in s[..i]
  {
    if s[0] == x then 0
    else
      var j := FirstIndex(s[1..], x);
      assert s[..j + 1] == [s[0]] + s[1..][..j];
      j + 1
  }

  /**
   * The kept elements come in the order of their first occurrences in `s`,
   * and the first element of `s` comes first unless it is excluded.
   */
  lemma {:induction false} DistinctExceptOrder<T(!new)>(s: seq<T>, seen: set<T>)
    ensures forall i, j :: 0 <= i < j < |DistinctExcept(s, seen)| ==>
      FirstIndex(s, DistinctExcept(s, seen)[i]) < FirstIndex(s, DistinctExcept(s, seen)[j])
    ensures s != [] && s[0] !in seen ==> DistinctExcept(s, seen) != [] && DistinctExcept(s, seen)[0] == s[0]
  {
    if s != [] {
      var r := DistinctExcept(s, seen);
      var seen' := if s[0] in seen then seen else seen + {s[0]};
      var rest := DistinctExcept(s[1..], seen');
      DistinctExceptOrder(s[1..], seen');
      forall x | x in rest ensures FirstIndex(s, x) == FirstIndex(s[1..], x) + 1 {
        assert x != s[0];
        FirstIndexTail(s, x);
      }
      if s[0] !in seen {
        assert r == [s[0]] + rest;
        forall i, j | 0 <= i < j < |r| ensures FirstIndex(s, r[i]) < FirstIndex(s, r[j]) {
          assert r[j] == rest[j - 1];
          if i > 0 {
            assert r[i] == rest[i - 1];
          }
        }
      }
    }
  }

  lemma FirstIndexTail<T>(s: seq<T>, x: T)
    requires s != [] && x in s && x != s[0]
    ensures x in s[1..] && FirstIndex(s, x) == FirstIndex(s[1..], x) + 1
  {
    assert x in s[1..] by {
      var k :| 0 <= k < |s| && s[k] == x;
      assert s[1..][k - 1] == x;
    }
  }

  /** `s.Distinct()` */
  function Distinct<T(==,!new)>(s: seq<T>): (r: seq<T>)
  {
    DistinctExcept(s, {})
  }

  /** `s.Except(t)` */
  function Except<T(==,!new)>(s: seq<T>, t: seq<T>): (r: seq<T>)
  {
    DistinctExcept(s, set x | x in t)
  }

  /** Dropping duplicates from a duplicate-free sequence changes nothing. */
  lemma {:induction false} DistinctExceptOfDistinct<T(!new)>(s: seq<T>, seen: set<T>)
    requires IsDistinct(s)
    requires forall x :: x in s ==> x !in seen
    ensures DistinctExcept(s, seen) == s
  {
    if s != [] {
      assert forall x :: x in s[1..] ==> x !in seen + {s[0]} by {
        forall x | x in s[1..] ensures x !in seen + {s[0]} {
          var k :| 0 <= k < |s[1..]| && s[1..][k] == x;
          assert s[k + 1] == x;
        }
      }
      DistinctExceptOfDistinct(s[1..], seen + {s[0]});
    }
  }

  /** A duplicate-free sequence is as long as its set of elements is large. */
  lemma {:induction false} DistinctCardinality<T>(s: seq<T>)
    requires IsDistinct(s)
    ensures |set x | x in s| == |s|
  {
    if s != [] {
      var tail := set x | x in s[1..];
      DistinctCardinality(s[1..]);
      assert s[0] !in s[1..] by {
        forall k | 0 <= k < |s[1..]| ensures s[1..][k] != s[0] {
          assert s[1..][k] == s[k + 1];
        }
      }
      assert (set x | x in s) == tail + {s[0]};
    }
  }

  /** A non-empty duplicate-free sequence whose elements all equal `x` is `[x]`. */
  lemma DistinctConstant<T>(s: seq<T>, x: T)
    requires IsDistinct(s) && x in s
    requires forall y :: y in s ==> y == x
    ensures |s| == 1
  {
    DistinctCardinality(s);
    assert (set y | y in s) == {x};
  }

  //
  // OrderByDescending: a stable sort on an integer key
  //

  predicate SortedDescending<C>(s: seq<C>, key: C -> int)
  {
    forall i, j :: 0 <= i < j < |s| ==> key(s[i]) >= key(s[j])
  }

  /** Inserts `x` before the first element whose key is not larger than its own. */
  function InsertDescending<C>(x: C, t: seq<C>, key: C -> int): (r: seq<C>)
    ensures |r| == |t| + 1
    ensures multiset(r) == multiset{x} + multiset(t)
  {
    if t == [] then [x]
    else if key(x) >= key(t[0]) then [x] + t
    else
      assert t == [t[0]] + t[1..];
      [t[0]] + InsertDescending(x, t[1..], key)
  }

  lemma {:induction false} InsertDescendingSorted<C>(x: C, t: seq<C>, key: C -> int)
    requires SortedDescending(t, key)
    ensures SortedDescending(InsertDescending(x, t, key), key)
  {
    if t == [] {
    } else if key(x) >= key(t[0]) {
      ConsSorted(x, t, key);
    } else {
      var rest := InsertDescending(x, t[1..], key);
      SortedTail(t, key);
      InsertDescendingSorted(x, t[1..], key);
      forall y | y in rest ensures key(y) <= key(t[0]) {
        assert y in multiset(rest);
        if y != x {
          assert y in multiset(t[1..]);
          TailBelowHead(t, key, y);
        }
      }
      ConsSorted(t[0], rest, key);
    }
  }

  lemma SortedTail<C>(t: seq<C>, key: C -> int)
    requires t != [] && SortedDescending(t, key)
    ensures SortedDescending(t[1..], key)
  {
    forall i, j | 0 <= i < j < |t| - 1 ensures key(t[1..][i]) >= key(t[1..][j]) {
      assert t[1..][i] == t[i + 1] && t[1..][j] == t[j + 1];
    }
  }

  lemma TailBelowHead<C>(t: seq<C>, key: C -> int, y: C)
    requires t != [] && SortedDescending(t, key) && y in t[1..]
    ensures key(y) <= key(t[0])
  {
    var j :| 0 <= j < |t[1..]| && t[1..][j] == y;
    assert t[j + 1] == y;
  }

  /** Prefixing an element no smaller than everything after it keeps the order. */
  lemma ConsSorted<C>(h: C, rest: seq<C>, key: C -> int)
    requires SortedDescending(rest, key)
    requires forall y :: y in rest ==> key(y) <= key(h)
    ensures SortedDescending([h] + rest, key)
  {
    var r := [h] + rest;
    forall i, j | 0 <= i < j < |r| ensures key(r[i]) >= key(r[j]) {
      assert r[j] == rest[j - 1];
      if i > 0 {
        assert r[i] == rest[i - 1];
      }
    }
  }

  /**
   * `s.OrderByDescending(key)`: sorted by non-increasing key, a permutation
   * of `s`, and stable (see SortDescendingStable).
   */
  function SortDescending<C>(s: seq<C>, key: C -> int): (r: seq<C>)
    ensures |r| == |s|
    ensures multiset(r) == multiset(s)
    ensures SortedDescending(r, key)
  {
    if s == [] then []
    else
      assert s == [s[0]] + s[1..];
      var t := SortDescending(s[1..], key);
      InsertDescendingSorted(s[0], t, key);
      InsertDescending(s[0], t, key)
  }

  /** The elements of `s` whose key is `k`, in order. */
  function WithKey<C>(s: seq<C>, key: C -> int, k: int): seq<C>
  {
    if s == [] then [] else (if key(s[0]) == k then [s[0]] else []) + WithKey(s[1..], key, k)
  }

  /**
   * Everything `x` is inserted after has a larger key, so `x` comes first
   * among the elements that share its key.
   */
  lemma {:induction false} InsertDescendingWithKey<C>(x: C, t: seq<C>, key: C -> int, k: int)
    ensures WithKey(InsertDescending(x, t, key), key, k)
         == (if key(x) == k then [x] else []) + WithKey(t, key, k)
  {
    if t != [] {
      if key(x) >= key(t[0]) {
        WithKeyCons(x, t, key, k);
      } else {
        var rest := InsertDescending(x, t[1..], key);
        var a: seq<C> := if key(t[0]) == k then [t[0]] else [];
        var b: seq<C> := if key(x) == k then [x] else [];
        WithKeyCons(t[0], rest, key, k);
        InsertDescendingWithKey(x, t[1..], key, k);
        WithKeyCons(t[0], t[1..], key, k);
        assert [t[0]] + t[1..] == t;
        calc {
          WithKey(InsertDescending(x, t, key), key, k);
          WithKey([t[0]] + rest, key, k);
          a + (b + WithKey(t[1..], key, k));
          { SwapEmpty(a, b, WithKey(t[1..], key, k)); }
          b + (a + WithKey(t[1..], key, k));
          b + WithKey(t, key, k);
        }
      }
    }
  }

  lemma SwapEmpty<C>(a: seq<C>, b: seq<C>, w: seq<C>)
    requires a == [] || b == []
    ensures a + (b + w) == b + (a + w)
  {
    if a == [] {
      assert a + (b + w) == b + w;
    } else {
      assert b + (a + w) == a + w;
    }
  }

  lemma WithKeyCons<C>(x: C, t: seq<C>, key: C -> int, k: int)
    ensures WithKey([x] + t, key, k) == (if key(x) == k then [x] else []) + WithKey(t, key, k)
  {
    assert ([x] + t)[0] == x && ([x] + t)[1..] == t;
  }

  /** Stability: elements with equal keys keep their input order. */
  lemma {:induction false} SortDescendingStable<C>(s: seq<C>, key: C -> int, k: int)
    ensures WithKey(SortDescending(s, key), key, k) == WithKey(s, key, k)
  {
    if s != [] {
      SortDescendingStable(s[1..], key, k);
      InsertDescendingWithKey(s[0], SortDescending(s[1..], key), key, k);
    }
  }

  /** The sum of `f` over the elements of `s`. */
  function SumBy<C>(s: seq<C>, f: C -> int): int
  {
    if s == [] then 0 else f(s[0]) + SumBy(s[1..], f)
  }

  lemma {:induction false} InsertDescendingSum<C>(x: C, t: seq<C>, key: C -> int, f: C -> int)
    ensures SumBy(InsertDescending(x, t, key), f) == f(x) + SumBy(t, f)
  {
    if t != [] {
      if key(x) >= key(t[0]) {
        assert ([x] + t)[1..] == t;
      } else {
        var rest := InsertDescending(x, t[1..], key);
        assert ([t[0]] + rest)[1..] == rest;
        InsertDescendingSum(x, t[1..], key, f);
      }
    }
  }

  lemma {:induction false} SortDescendingSum<C>(s: seq<C>, key: C -> int, f: C -> int)
    ensures SumBy(SortDescending(s, key), f) == SumBy(s, f)
  {
    if s != [] {
      SortDescendingSum(s[1..], key, f);
      InsertDescendingSum(s[0], SortDescending(s[1..], key), key, f);
    }
  }
}
