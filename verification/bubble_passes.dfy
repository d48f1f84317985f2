/**
 * The adjacent-swap passes that the background task applies to the shared
 * buffer, stated as functions on sequences, and what they guarantee: each pass
 * keeps the buffer a permutation of its contents and moves the largest element
 * of the unsorted prefix to the front of the sorted suffix.
 */
module BubblePasses {

  /** s is in non-decreasing order. */
  predicate Sorted(s: seq<int>)
  {
    forall i, j :: 0 <= i < j < |s| ==> s[i] <= s[j]
  }

  /**
   * The last k positions of s are in non-decreasing order, and none of them
   * is smaller than any element before them: they hold the k largest
   * elements of s, sorted.
   */
  predicate SortedSuffix(s: seq<int>, k: nat)
    requires k <= |s|
  {
    && (forall i, j :: |s| - k <= i < j < |s| ==> s[i] <= s[j])
    && (forall p, q :: 0 <= p < |s| - k <= q < |s| ==> s[p] <= s[q])
  }

  /** Number of outer iterations of `for (int i = 0; i < n - 1; i++)`. */
  function PassCount(n: nat): nat
  {
    if n == 0 then 0 else n - 1
  }

  /** One step of the inner loop: positions j and j + 1 are swapped when out of order. */
  function CompareSwap(s: seq<int>, j: nat): (r: seq<int>)
    requires j + 1 < |s|
    ensures |r| == |s|
  {
    if s[j] > s[j + 1] then Exchange(s, j) else s
  }

  /** s with the elements at j and j + 1 exchanged. */
  function Exchange(s: seq<int>, j: nat): (r: seq<int>)
    requires j + 1 < |s|
    ensures |r| == |s|
    decreases j
  {
    if j == 0 then [s[1], s[0]] + s[2..] else [s[0]] + Exchange(s[1..], j - 1)
  }

  /** The inner loop run for j = 0 .. m - 1. */
  function BubbleTo(s: seq<int>, m: nat): (r: seq<int>)
    requires m < |s|
    ensures |r| == |s|
  {
    if m == 0 then s else CompareSwap(BubbleTo(s, m - 1), m - 1)
  }

  /** The buffer after the first k outer iterations (passes i = 0 .. k - 1) have run. */
  function Passes(s: seq<int>, k: nat): (r: seq<int>)
    requires k <= |s|
    ensures |r| == |s|
  {
    if k == 0 then s else BubbleTo(Passes(s, k - 1), |s| - k)
  }

  /**
   * A compare-and-swap step leaves the pair at j in order, either as it was
   * or exchanged, and changes nothing else.
   */
  lemma CompareSwapOrders(s: seq<int>, j: nat)
    requires j + 1 < |s|
    ensures var r := CompareSwap(s, j);
      && r[j] <= r[j + 1]
      && ((r[j] == s[j] && r[j + 1] == s[j + 1]) || (r[j] == s[j + 1] && r[j + 1] == s[j]))
      && forall t :: 0 <= t < |s| && t != j && t != j + 1 ==> r[t] == s[t]
  {
    if s[j] > s[j + 1] {
      ExchangeSwaps(s, j);
    }
  }

  /** CompareSwap, stated as the element updates the inner loop performs. */
  lemma CompareSwapUpdates(s: seq<int>, j: nat)
    requires j + 1 < |s|
    ensures CompareSwap(s, j) == if s[j] > s[j + 1] then s[j := s[j + 1]][j + 1 := s[j]] else s
  {
    if s[j] > s[j + 1] {
      ExchangeSwaps(s, j);
    }
  }

  /** Exchange puts s[j + 1] at j and s[j] at j + 1 and leaves every other position alone. */
  lemma {:induction false} ExchangeSwaps(s: seq<int>, j: nat)
    requires j + 1 < |s|
    ensures var r := Exchange(s, j);
      && r[j] == s[j + 1] && r[j + 1] == s[j]
      && forall t :: 0 <= t < |s| && t != j && t != j + 1 ==> r[t] == s[t]
  {
    if j > 0 {
      var tail := Exchange(s[1..], j - 1);
      ExchangeSwaps(s[1..], j - 1);
      assert Exchange(s, j) == [s[0]] + tail;
    }
  }

  /**
   * After the inner loop has run up to m, position m holds the largest of
   * the first m + 1 elements, and everything after position m is untouched.
   */
  lemma {:induction false} BubbleToBubblesMax(s: seq<int>, m: nat)
    requires m < |s|
    ensures var r := BubbleTo(s, m);
      && (forall t :: 0 <= t <= m ==> r[t] <= r[m])
      && (forall t :: m < t < |s| ==> r[t] == s[t])
  {
    if m > 0 {
      var k := m - 1;
      assert k + 1 == m;
      var prev := BubbleTo(s, k);
      BubbleToBubblesMax(s, k);
      CompareSwapOrders(prev, k);
      var r := BubbleTo(s, m);
      assert r == CompareSwap(prev, k);
      forall t | 0 <= t <= m
        ensures r[t] <= r[m]
      {
        if t < k {
          assert r[t] == prev[t] <= prev[k] <= r[m];
        }
      }
    }
  }

  /** The inner loop's next step, as the recursion of BubbleTo sees it. */
  lemma BubbleToNext(s: seq<int>, j: nat)
    requires j + 1 < |s|
    ensures BubbleTo(s, j + 1) == CompareSwap(BubbleTo(s, j), j)
  {
  }

  /** The outer loop's next pass, as the recursion of Passes sees it. */
  lemma PassesNext(s: seq<int>, k: nat, m: nat)
    requires k < |s| && m == |s| - k - 1
    ensures Passes(s, k + 1) == BubbleTo(Passes(s, k), m)
  {
  }

  /** A compare-and-swap step only rearranges the elements up to j + 1 among themselves. */
  lemma CompareSwapPermutesPrefix(s: seq<int>, j: nat)
    requires j + 1 < |s|
    ensures multiset(CompareSwap(s, j)[..j + 2]) == multiset(s[..j + 2])
  {
    var r := CompareSwap(s, j);
    CompareSwapOrders(s, j);
    assert r[..j + 2] == r[..j] + [r[j], r[j + 1]];
    assert s[..j + 2] == s[..j] + [s[j], s[j + 1]];
    assert r[..j] == s[..j];
  }

  /** Two sequences whose first m elements agree as multisets, and whose elements at m are equal, agree up to m + 1. */
  lemma PrefixExtend(a: seq<int>, b: seq<int>, m: nat)
    requires m < |a| && m < |b|
    requires multiset(a[..m]) == multiset(b[..m]) && a[m] == b[m]
    ensures multiset(a[..m + 1]) == multiset(b[..m + 1])
  {
    assert a[..m + 1] == a[..m] + [a[m]];
    assert b[..m + 1] == b[..m] + [b[m]];
  }

  /** The inner pass up to m only rearranges the first m + 1 elements among themselves. */
  lemma {:induction false} BubbleToPermutesPrefix(s: seq<int>, m: nat)
    requires m < |s|
    ensures multiset(BubbleTo(s, m)[..m + 1]) == multiset(s[..m + 1])
  {
    if m > 0 {
      var k := m - 1;
      assert k + 1 == m;
      var prev := BubbleTo(s, k);
      BubbleToPermutesPrefix(s, k);
      BubbleToBubblesMax(s, k);
      PrefixExtend(prev, s, m);
      CompareSwapPermutesPrefix(prev, k);
    }
  }

  /** The inner pass up to m keeps the buffer a permutation of its contents. */
  lemma BubbleToPermutes(s: seq<int>, m: nat)
    requires m < |s|
    ensures multiset(BubbleTo(s, m)) == multiset(s)
  {
    var r := BubbleTo(s, m);
    BubbleToPermutesPrefix(s, m);
    BubbleToBubblesMax(s, m);
    assert r[m + 1..] == s[m + 1..];
    assert r == r[..m + 1] + r[m + 1..];
    assert s == s[..m + 1] + s[m + 1..];
  }

  /** Any number of passes keeps the buffer a permutation of its initial contents. */
  lemma {:induction false} PassesPermute(s: seq<int>, k: nat)
    requires k <= |s|
    ensures multiset(Passes(s, k)) == multiset(s)
  {
    if k > 0 {
      PassesPermute(s, k - 1);
      BubbleToPermutes(Passes(s, k - 1), |s| - k);
      assert multiset(Passes(s, k)) == multiset(BubbleTo(Passes(s, k - 1), |s| - k));
    }
  }

  /** One more pass extends a sorted suffix of k - 1 elements to k elements. */
  lemma PassExtendsSortedSuffix(prev: seq<int>, k: nat)
    requires 0 < k <= |prev| && SortedSuffix(prev, k - 1)
    ensures SortedSuffix(BubbleTo(prev, |prev| - k), k)
  {
    var m := |prev| - k;
    var r := BubbleTo(prev, m);
    // r[m] is one of the first m + 1 elements of prev, none of which exceeds the old suffix
    BubbleToPermutesPrefix(prev, m);
    BubbleToBubblesMax(prev, m);
    assert r[m] in multiset(prev[..m + 1]) by {
      assert r[m] in r[..m + 1];
    }
    var p :| 0 <= p <= m && prev[..m + 1][p] == r[m];
    assert forall q :: m < q < |prev| ==> prev[p] <= prev[q];
  }

  /** After k passes the last k positions hold the k largest elements, sorted. */
  lemma {:induction false} PassesSortSuffix(s: seq<int>, k: nat)
    requires k <= |s|
    ensures SortedSuffix(Passes(s, k), k)
  {
    if k > 0 {
      PassesSortSuffix(s, k - 1);
      PassExtendsSortedSuffix(Passes(s, k - 1), k);
    }
  }

  /** Running every outer iteration leaves the buffer sorted. */
  lemma FullPassesSort(s: seq<int>)
    ensures Sorted(Passes(s, PassCount(|s|)))
  {
    var k := PassCount(|s|);
    if k > 0 {
      assert k == |s| - 1;
      PassesSortSuffix(s, k);
      SortedSuffixAll(Passes(s, k));
    } else {
      assert Passes(s, k) == s;
    }
  }

  /** A sorted suffix covering all but the first position makes the whole sequence sorted. */
  lemma SortedSuffixAll(r: seq<int>)
    requires |r| > 0 && SortedSuffix(r, |r| - 1)
    ensures Sorted(r)
  {
    forall i, j | 0 <= i < j < |r|
      ensures r[i] <= r[j]
    {
      if i == 0 {
        assert 0 <= i < |r| - (|r| - 1) <= j < |r|;
      }
    }
  }

  /** The first element of a sorted permutation of s is the minimum of s. */
  lemma SortedFrontIsMinimum(s: seq<int>, r: seq<int>)
    requires Sorted(r) && multiset(r) == multiset(s) && |s| > 0
    ensures r[0] in s && forall x :: x in s ==> r[0] <= x
  {
    assert |r| == |multiset(r)| == |multiset(s)| == |s|;
    assert r[0] in multiset(r);
    forall x | x in s
      ensures r[0] <= x
    {
      assert x in multiset(r);
      var t :| 0 <= t < |r| && r[t] == x;
    }
  }
}
