/**
  Python's `sorted` on values compared by a total order. The model sorts by
  insertion; `SortedUnique` shows that under an antisymmetric total order
  there is only one sorted permutation, so any correct sort, the one Python
  runs included, returns the same sequence.
  */
module Sorting {

  ghost predicate Total<T(!new)>(le: (T, T) -> bool)
  {
    forall a, b :: le(a, b) || le(b, a)
  }

  ghost predicate Transitive<T(!new)>(le: (T, T) -> bool)
  {
    forall a, b, c :: le(a, b) && le(b, c) ==> le(a, c)
  }

  ghost predicate Antisymmetric<T(!new)>(le: (T, T) -> bool)
  {
    forall a, b :: le(a, b) && le(b, a) ==> a == b
  }

  /** A total order: the comparison Python's tuple and list ordering gives. */
  ghost predicate TotalOrder<T(!new)>(le: (T, T) -> bool)
  {
    Total(le) && Transitive(le) && Antisymmetric(le)
  }

  /** Every neighbour pair is in order. */
  predicate Sorted<T>(le: (T, T) -> bool, s: seq<T>)
  {
    forall i :: 0 < i < |s| ==> le(s[i - 1], s[i])
  }

  /** `x` placed before the first element it does not exceed. */
  function Insert<T(!new)>(le: (T, T) -> bool, x: T, s: seq<T>): (r: seq<T>)
    requires Total(le) && Sorted(le, s)
    ensures Sorted(le, r)
    ensures multiset(r) == multiset(s) + multiset{x}
    ensures |r| == |s| + 1 && (r[0] == x || (|s| > 0 && r[0] == s[0]))
    decreases |s|
  {
    if |s| == 0 then [x]
    else if le(x, s[0]) then [x] + s
    else
      assert s == [s[0]] + s[1..];
      assert Sorted(le, s[1..]) by {
        forall i | 0 < i < |s| - 1 ensures le(s[1..][i - 1], s[1..][i]) {
          assert le(s[i], s[i + 1]);
        }
      }
      [s[0]] + Insert(le, x, s[1..])
  }

  /** `sorted(xs)`: an ordered permutation of `xs`. */
  function Sort<T(!new)>(le: (T, T) -> bool, xs: seq<T>): (r: seq<T>)
    requires Total(le)
    ensures Sorted(le, r)
    ensures multiset(r) == multiset(xs)
    decreases |xs|
  {
    if |xs| == 0 then []
    else
      assert xs == [xs[0]] + xs[1..];
      Insert(le, xs[0], Sort(le, xs[1..]))
  }

  /** With a transitive order, being sorted neighbour by neighbour puts every pair in order. */
  lemma {:induction false} SortedPairs<T(!new)>(le: (T, T) -> bool, s: seq<T>, i: int, j: int)
    requires Transitive(le) && Sorted(le, s) && 0 <= i < j < |s|
    ensures le(s[i], s[j])
    decreases j - i
  {
    if i + 1 < j {
      SortedPairs(le, s, i, j - 1);
    }
  }

  /** The first element of a sorted sequence is below every element. */
  lemma SortedHeadLeast<T(!new)>(le: (T, T) -> bool, s: seq<T>, x: T)
    requires Total(le) && Transitive(le) && Sorted(le, s) && x in s
    ensures le(s[0], x)
  {
    var k :| 0 <= k < |s| && s[k] == x;
    if k > 0 {
      SortedPairs(le, s, 0, k);
    }
  }

  /** Two sorted permutations of one multiset are the same sequence. */
  lemma {:induction false} SortedUnique<T(!new)>(le: (T, T) -> bool, a: seq<T>, b: seq<T>)
    requires TotalOrder(le) && Sorted(le, a) && Sorted(le, b) && multiset(a) == multiset(b)
    ensures a == b
    decreases |a|
  {
    assert |a| == |multiset(a)| == |multiset(b)| == |b|;
    if |a| > 0 {
      assert a[0] in multiset(b) && b[0] in multiset(a);
      SortedHeadLeast(le, a, b[0]);
      SortedHeadLeast(le, b, a[0]);
      assert a[0] == b[0];
      assert a == [a[0]] + a[1..] && b == [b[0]] + b[1..];
      assert multiset(a) == multiset{a[0]} + multiset(a[1..]);
      assert multiset(b) == multiset{b[0]} + multiset(b[1..]);
      assert multiset(a[1..]) == multiset(a) - multiset{a[0]};
      assert multiset(b[1..]) == multiset(b) - multiset{b[0]};
      SortedTail(le, a);
      SortedTail(le, b);
      SortedUnique(le, a[1..], b[1..]);
    }
  }

  lemma SortedTail<T>(le: (T, T) -> bool, s: seq<T>)
    requires Sorted(le, s) && |s| > 0
    ensures Sorted(le, s[1..])
  {
    forall i | 0 < i < |s| - 1 ensures le(s[1..][i - 1], s[1..][i]) {
      assert le(s[i], s[i + 1]);
    }
  }
}
