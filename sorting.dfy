/**
 * Ascending sort of a sequence of integers, standing for Rust's `sort` and
 * `sort_unstable`: for integers the two cannot be told apart, since a sorted
 * permutation is unique.
 */
module Sorting {

  ghost predicate Sorted(s: seq<int>)
  {
    forall i, j :: 0 <= i < j < |s| ==> s[i] <= s[j]
  }

  /** Putting a lower bound of a sorted sequence in front keeps it sorted. */
  lemma ConsSorted(h: int, t: seq<int>)
    requires Sorted(t)
    requires forall k :: 0 <= k < |t| ==> h <= t[k]
    ensures Sorted([h] + t)
  {
    var r := [h] + t;
    forall i, j | 0 <= i < j < |r| ensures r[i] <= r[j] {
      assert r[j] == t[j - 1];
      if i > 0 {
        assert r[i] == t[i - 1];
      }
    }
  }

  /** Every element of a permutation of `x` and the tail of `s` is at least `s`'s head, when `x` is. */
  lemma LowerBound(x: int, s: seq<int>, t: seq<int>)
    requires Sorted(s) && s != [] && s[0] <= x
    requires multiset(t) == multiset(s[1..]) + multiset{x}
    ensures forall k :: 0 <= k < |t| ==> s[0] <= t[k]
  {
    forall k | 0 <= k < |t| ensures s[0] <= t[k] {
      assert t[k] in multiset(t);
      if t[k] != x {
        assert t[k] in multiset(s[1..]);
        var i :| 0 <= i < |s[1..]| && s[1..][i] == t[k];
        assert s[i + 1] == t[k];
      }
    }
  }

  function Insert(x: int, s: seq<int>): (r: seq<int>)
    requires Sorted(s)
    ensures Sorted(r) && multiset(r) == multiset(s) + multiset{x}
  {
    if s == [] || x <= s[0] then
      ConsSorted(x, s);
      [x] + s
    else
      assert s == [s[0]] + s[1..];
      SortedTail(s);
      var t := Insert(x, s[1..]);
      LowerBound(x, s, t);
      ConsSorted(s[0], t);
      [s[0]] + t
  }

  function Sort(s: seq<int>): (r: seq<int>)
    ensures Sorted(r) && multiset(r) == multiset(s)
  {
    if s == [] then []
    else
      assert s == [s[0]] + s[1..];
      Insert(s[0], Sort(s[1..]))
  }

  /** The head of a sorted sequence is its least element. */
  lemma SortedHeadIsLeast(s: seq<int>, x: int)
    requires Sorted(s) && x in s
    ensures s[0] <= x
  {
    var i :| 0 <= i < |s| && s[i] == x;
    if i > 0 {
      assert s[0] <= s[i];
    }
  }

  /** Removing the same first element from two permutations leaves permutations. */
  lemma TailsPermute(a: seq<int>, b: seq<int>)
    requires a != [] && b != [] && a[0] == b[0] && multiset(a) == multiset(b)
    ensures multiset(a[1..]) == multiset(b[1..])
  {
    assert a == [a[0]] + a[1..] && b == [b[0]] + b[1..];
    assert multiset(a[1..]) == multiset(a) - multiset{a[0]};
  }

  /** The tail of a sorted sequence is sorted. */
  lemma SortedTail(a: seq<int>)
    requires a != [] && Sorted(a)
    ensures Sorted(a[1..])
  {
    forall i, j | 0 <= i < j < |a| - 1 ensures a[1..][i] <= a[1..][j] {
      assert a[1..][i] == a[i + 1] && a[1..][j] == a[j + 1];
    }
  }

  /** Two sorted sequences with the same elements are equal. */
  lemma {:induction false} SortedUnique(a: seq<int>, b: seq<int>)
    requires Sorted(a) && Sorted(b) && multiset(a) == multiset(b)
    ensures a == b
  {
    if a == [] {
      assert |multiset(b)| == 0;
    } else {
      assert |b| == |multiset(b)| == |multiset(a)| == |a|;
      assert a[0] in multiset(b) && b[0] in multiset(a);
      SortedHeadIsLeast(a, b[0]);
      SortedHeadIsLeast(b, a[0]);
      TailsPermute(a, b);
      SortedTail(a);
      SortedTail(b);
      SortedUnique(a[1..], b[1..]);
      assert a == [a[0]] + a[1..] && b == [b[0]] + b[1..];
    }
  }

  /** Sorting does not depend on the order of its input. */
  lemma SortPermutationInvariant(a: seq<int>, b: seq<int>)
    requires multiset(a) == multiset(b)
    ensures Sort(a) == Sort(b)
  {
    SortedUnique(Sort(a), Sort(b));
  }

  /** Sort returns the one sorted arrangement of its input's elements. */
  lemma SortIsTheSortedPermutation(v: seq<int>, w: seq<int>)
    requires Sorted(w) && multiset(v) == multiset(w)
    ensures Sort(v) == w
  {
    SortedUnique(Sort(v), w);
  }
}
