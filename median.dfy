/**
 * The value a PBFT node delivers (consensus/pbft/src/node/ping.rs, the
 * delivery branch of `handle_echo`): the median of the delivered vector,
 * and the text the node reports for it.
 */
module Statistics {
  import opened Ints
  import opened Sorting
  import opened Text

  /** The middle element of an odd-length sequence, the mean of the two middle ones otherwise. */
  function Middle(s: seq<int>): real
    requires |s| > 0
  {
    var mid := |s| / 2;
    if |s| % 2 == 0 then (s[mid - 1] + s[mid]) as real / 2.0 else s[mid] as real
  }

  /** The report string for the middle of a sequence of naturals: `{:?}` of a `u64`, or of an `f64` half. */
  function MiddleText(s: seq<nat>): string
    requires |s| > 0
  {
    var mid := |s| / 2;
    if |s| % 2 == 0 then
      var sum := s[mid - 1] + s[mid];
      Decimal(sum / 2) + (if sum % 2 == 0 then ".0" else ".5")
    else Decimal(s[mid])
  }

  /** Sorting a vector of `u64` values yields naturals of the same length. */
  function SortNat(v: seq<U64>): (r: seq<nat>)
    ensures |r| == |v| && r == Sort(v)
  {
    var s := Sort(v);
    assert |s| == |multiset(s)| == |multiset(v)| == |v|;
    assert forall k :: 0 <= k < |s| ==> s[k] in multiset(v);
    s
  }

  /** Sort, then take the middle. */
  function Median(v: seq<int>): real
    requires |v| > 0
  {
    var s := Sort(v);
    assert |s| == |multiset(s)| == |multiset(v)| == |v|;
    Middle(s)
  }

  /** The text `handle_echo` reports for a delivered vector. */
  function MedianText(v: seq<U64>): string
    requires |v| > 0
  {
    MiddleText(SortNat(v))
  }

  /** Half of a natural number is a whole number or a half, with floor the integer quotient. */
  lemma Halves(sum: nat)
    ensures (sum as real / 2.0).Floor == sum / 2
    ensures sum as real / 2.0 == (sum / 2) as real + (sum % 2) as real / 2.0
  {
    var q, r := sum / 2, sum % 2;
    assert sum == 2 * q + r;
    assert sum as real == 2.0 * q as real + r as real;
  }

  lemma MiddleTextSpellsMiddle(s: seq<nat>)
    requires |s| > 0
    ensures Middle(s) >= 0.0
    ensures |s| % 2 == 1 ==> MiddleText(s) == Decimal(Middle(s).Floor)
    ensures |s| % 2 == 0 ==>
              MiddleText(s) == Decimal(Middle(s).Floor) + (if Middle(s) == Middle(s).Floor as real then ".0" else ".5")
  {
    var mid := |s| / 2;
    if |s| % 2 == 0 {
      var sum: nat := s[mid - 1] + s[mid];
      assert Middle(s) == sum as real / 2.0;
      Halves(sum);
      assert Middle(s).Floor == sum / 2;
      assert (Middle(s) == Middle(s).Floor as real) == (sum % 2 == 0);
      assert MiddleText(s) == Decimal(sum / 2) + (if sum % 2 == 0 then ".0" else ".5");
    } else {
      assert Middle(s) == s[mid] as real;
    }
  }

  /** The report string spells out the median: its whole part, then `.0` or `.5` for an even length. */
  lemma MedianTextSpellsMedian(v: seq<U64>)
    requires |v| > 0
    ensures Median(v) >= 0.0
    ensures |v| % 2 == 1 ==> MedianText(v) == Decimal(Median(v).Floor)
    ensures |v| % 2 == 0 ==>
              MedianText(v) == Decimal(Median(v).Floor) + (if Median(v) == Median(v).Floor as real then ".0" else ".5")
  {
    var s := SortNat(v);
    assert Median(v) == Middle(s);
    MiddleTextSpellsMiddle(s);
  }

  /** The delivered value does not depend on the order of the vector. */
  lemma MedianPermutationInvariant(a: seq<int>, b: seq<int>)
    requires |a| > 0 && multiset(a) == multiset(b)
    ensures |b| > 0 && Median(a) == Median(b)
  {
    assert |b| == |multiset(b)| == |multiset(a)| == |a|;
    SortPermutationInvariant(a, b);
  }

  lemma MiddleBetweenEnds(s: seq<int>)
    requires |s| > 0 && Sorted(s)
    ensures s[0] as real <= Middle(s) <= s[|s| - 1] as real
  {
    var mid := |s| / 2;
    assert s[0] <= s[mid] <= s[|s| - 1];
    if |s| % 2 == 0 {
      assert s[0] <= s[mid - 1] <= s[|s| - 1];
    }
  }

  /** The median lies between the least and the greatest element. */
  lemma MedianBetweenExtremes(v: seq<int>)
    requires |v| > 0
    ensures exists lo, hi ::
              && lo in v && hi in v && lo as real <= Median(v) <= hi as real
              && (forall x :: x in v ==> lo <= x <= hi)
  {
    var s := Sort(v);
    assert |s| == |multiset(s)| == |multiset(v)| == |v|;
    var lo, hi := s[0], s[|s| - 1];
    SortedEnds(v, s);
    MiddleBetweenEnds(s);
    assert Median(v) == Middle(s);
  }

  /** The ends of a sorted permutation of `v` are elements of `v` bounding all of it. */
  lemma SortedEnds(v: seq<int>, s: seq<int>)
    requires |s| > 0 && Sorted(s) && multiset(s) == multiset(v)
    ensures s[0] in v && s[|s| - 1] in v
    ensures forall x :: x in v ==> s[0] <= x <= s[|s| - 1]
  {
    assert s[0] in multiset(v) && s[|s| - 1] in multiset(v);
    forall x | x in v ensures s[0] <= x <= s[|s| - 1] {
      assert x in multiset(s);
      var i :| 0 <= i < |s| && s[i] == x;
    }
  }

  /** For an odd length the median is one of the values. */
  lemma MedianOddIsElement(v: seq<int>)
    requires |v| % 2 == 1
    ensures exists x :: x in v && Median(v) == x as real
  {
    var s := Sort(v);
    assert |s| == |multiset(s)| == |multiset(v)| == |v|;
    assert s[|s| / 2] in multiset(v);
    assert s[|s| / 2] in v && Median(v) == s[|s| / 2] as real;
  }

  lemma MiddleEvenExample(s: seq<nat>)
    requires s == [1, 2, 3, 4]
    ensures Middle(s) == 2.5 && MiddleText(s) == "2.5"
  {
    assert Decimal(2) == "2";
  }

  lemma MiddleOddExample(s: seq<nat>)
    requires s == [1, 3, 5]
    ensures Middle(s) == 3.0 && MiddleText(s) == "3"
  {
    assert Decimal(3) == "3";
  }

  /** Worked example: any ordering of 1, 2, 3, 4 delivers 2.5, reported as "2.5". */
  lemma MedianEvenExample(v: seq<U64>)
    requires multiset(v) == multiset{1, 2, 3, 4}
    ensures Median(v) == 2.5 && MedianText(v) == "2.5"
  {
    var sorted: seq<int> := [1, 2, 3, 4];
    assert multiset(sorted) == multiset{1, 2, 3, 4};
    SortIsTheSortedPermutation(v, sorted);
    var s := SortNat(v);
    assert s == [1, 2, 3, 4];
    MiddleEvenExample(s);
  }

  /** Worked example: any ordering of 5, 1, 3 delivers 3, reported as "3". */
  lemma MedianOddExample(v: seq<U64>)
    requires multiset(v) == multiset{5, 1, 3}
    ensures Median(v) == 3.0 && MedianText(v) == "3"
  {
    var sorted: seq<int> := [1, 3, 5];
    assert multiset(sorted) == multiset{5, 1, 3};
    SortIsTheSortedPermutation(v, sorted);
    var s := SortNat(v);
    assert s == [1, 3, 5];
    MiddleOddExample(s);
  }
}
