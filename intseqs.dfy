/** The numpy operations agg_time applies to an array of month indices:
    sorting, the maximum, and the largest difference of neighbours. */
module IntSeqs {

  predicate Sorted(s: seq<int>)
  {
    forall i, j :: 0 <= i < j < |s| ==> s[i] <= s[j]
  }

  function Insert(x: int, s: seq<int>): (r: seq<int>)
    requires Sorted(s)
    ensures Sorted(r)
    ensures multiset(r) == multiset(s) + multiset{x}
  {
    if s == [] then [x]
    else if x <= s[0] then [x] + s
    else
      var t := Insert(x, s[1..]);
      InsertAbove(s[0], x, s[1..], t);
      assert s == [s[0]] + s[1..];
      [s[0]] + t
  }

  lemma InsertAbove(lo: int, x: int, s: seq<int>, t: seq<int>)
    requires lo <= x && (forall y :: y in s ==> lo <= y)
    requires Sorted(t) && multiset(t) == multiset(s) + multiset{x}
    ensures Sorted([lo] + t)
  {
    forall j | 0 <= j < |t| ensures lo <= t[j] {
      assert t[j] in multiset(t);
      if t[j] != x {
        assert t[j] in multiset(s);
        assert t[j] in s;
      }
    }
  }

  /** Insertion sort: every list has an ascending permutation. */
  function InsertionSort(s: seq<int>): (r: seq<int>)
    ensures Sorted(r)
    ensures multiset(r) == multiset(s)
  {
    if s == [] then []
    else
      assert s == [s[0]] + s[1..];
      Insert(s[0], InsertionSort(s[1..]))
  }

  /** Two ascending lists holding the same values are equal. */
  lemma {:induction false} SortedUnique(a: seq<int>, b: seq<int>)
    requires Sorted(a) && Sorted(b) && multiset(a) == multiset(b)
    ensures a == b
  {
    assert |a| == |multiset(a)| == |multiset(b)| == |b|;
    if a != [] {
      SameHead(a, b);
      SameHead(b, a);
      assert a == [a[0]] + a[1..] && b == [b[0]] + b[1..];
      assert multiset(a) == multiset{a[0]} + multiset(a[1..]);
      assert multiset(b) == multiset{b[0]} + multiset(b[1..]);
      assert a[0] == b[0];
      assert multiset(a[1..]) == multiset(a) - multiset{a[0]};
      assert multiset(b[1..]) == multiset(b) - multiset{b[0]};
      SortedTail(a);
      SortedTail(b);
      SortedUnique(a[1..], b[1..]);
    }
  }

  lemma SortedTail(a: seq<int>)
    requires |a| > 0 && Sorted(a)
    ensures Sorted(a[1..])
  {
    forall i, j | 0 <= i < j < |a[1..]| ensures a[1..][i] <= a[1..][j] {
      assert a[1..][i] == a[i + 1] && a[1..][j] == a[j + 1];
    }
  }

  /** The head of an ascending list is at most every value of an equal
      multiset. */
  lemma SameHead(a: seq<int>, b: seq<int>)
    requires |a| > 0 && |b| > 0 && Sorted(b) && multiset(a) == multiset(b)
    ensures b[0] <= a[0]
  {
    assert a[0] in multiset(a);
    assert a[0] in b;
    var i :| 0 <= i < |b| && b[i] == a[0];
  }

  lemma SortedPermutationUnique(s: seq<int>)
    ensures forall a, b :: Sorted(a) && multiset(a) == multiset(s) && Sorted(b) && multiset(b) == multiset(s) ==> a == b
  {
    forall a, b | Sorted(a) && multiset(a) == multiset(s) && Sorted(b) && multiset(b) == multiset(s)
      ensures a == b
    {
      SortedUnique(a, b);
    }
  }

  /** np.sort: the ascending permutation of its input. */
  function Sort(s: seq<int>): (r: seq<int>)
    ensures Sorted(r)
    ensures multiset(r) == multiset(s)
  {
    var w := InsertionSort(s);
    SortedPermutationUnique(s);
    var r :| Sorted(r) && multiset(r) == multiset(s);
    r
  }

  /** Sorting keeps the length and the set of values. */
  lemma SortSameValues(s: seq<int>)
    ensures |Sort(s)| == |s|
    ensures forall x :: x in Sort(s) <==> x in s
  {
    var r := Sort(s);
    assert |multiset(r)| == |multiset(s)|;
    forall x ensures x in r <==> x in s {
      assert x in r <==> x in multiset(r);
      assert x in s <==> x in multiset(s);
    }
  }

  /** The ends of the sorted array are the minimum and the maximum. */
  lemma SortedEnds(s: seq<int>)
    requires |s| > 0
    ensures |Sort(s)| == |s|
    ensures Sort(s)[0] in s && Sort(s)[|s| - 1] in s
    ensures forall x :: x in s ==> Sort(s)[0] <= x <= Sort(s)[|s| - 1]
  {
    SortSameValues(s);
    var r := Sort(s);
    assert r[0] in r && r[|r| - 1] in r;
    SortedBounds(r);
  }

  lemma SortedBounds(r: seq<int>)
    requires |r| > 0 && Sorted(r)
    ensures forall x :: x in r ==> r[0] <= x <= r[|r| - 1]
  {
    forall x | x in r ensures r[0] <= x <= r[|r| - 1] {
      var k :| 0 <= k < |r| && r[k] == x;
      assert r[0] <= r[k] && r[k] <= r[|r| - 1];
    }
  }

  /** Entry i of the neighbour differences: the difference of the neighbours at i and i + 1. */
  function Gap(s: seq<int>, i: int): int
    requires 0 <= i < |s| - 1
  {
    s[i + 1] - s[i]
  }

  /** The maximum of the neighbour differences: the largest difference of neighbouring entries. */
  function MaxGap(s: seq<int>): (r: int)
    requires |s| >= 2
    ensures exists i :: 0 <= i < |s| - 1 && r == Gap(s, i)
    ensures forall i :: 0 <= i < |s| - 1 ==> Gap(s, i) <= r
  {
    if |s| == 2 then Gap(s, 0)
    else
      var m := MaxGap(s[1..]);
      var j :| 0 <= j < |s| - 2 && m == Gap(s[1..], j);
      assert Gap(s, j + 1) == m;
      assert forall i :: 1 <= i < |s| - 1 ==> Gap(s, i) == Gap(s[1..], i - 1);
      if Gap(s, 0) >= m then Gap(s, 0) else m
  }

  /** On a sorted array the largest gap is never negative and never exceeds
      the distance from the first to the last entry. */
  lemma GapBounds(s: seq<int>)
    requires |s| >= 2 && Sorted(s)
    ensures 0 <= MaxGap(s) <= s[|s| - 1] - s[0]
  {
    var i :| 0 <= i < |s| - 1 && MaxGap(s) == Gap(s, i);
    assert s[0] <= s[i] && s[i + 1] <= s[|s| - 1];
  }

  /** np.max of a non-empty array. */
  function MaxOf(s: seq<int>): (r: int)
    requires |s| > 0
    ensures r in s
    ensures forall x :: x in s ==> x <= r
  {
    if |s| == 1 then s[0]
    else
      var m := MaxOf(s[1..]);
      assert forall x :: x in s ==> x == s[0] || x in s[1..];
      if s[0] >= m then s[0] else m
  }
}
