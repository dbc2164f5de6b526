/** The median as MedianFilter::processData computes it: the window's values are
    inserted into a std::set<double> (ascending, duplicates dropped) and the element
    at index width/2 of that set is taken. With duplicates in the window the set can
    have width/2 elements or fewer, and then the iterator steps past the end. */
module Median {
  import opened Records

  function Elems(s: seq<real>): set<real>
  {
    set x | x in s
  }

  /** Strictly ascending: the iteration order of a std::set. */
  predicate Increasing(s: seq<real>)
  {
    forall i, j :: 0 <= i < j < |s| ==> s[i] < s[j]
  }

  /** The distinct values of vs that lie below r. */
  function SmallerIn(vs: seq<real>, r: real): set<real>
  {
    set x | x in vs && x < r
  }

  /** std::set<double>::insert on the ascending sequence of the set's elements:
      a value already present leaves the set as it is. */
  function Insert(s: seq<real>, x: real): (r: seq<real>)
    requires Increasing(s)
    ensures Increasing(r)
    ensures Elems(r) == Elems(s) + {x}
  {
    if s == [] then [x]
    else if x < s[0] then
      InsertFront(x, s);
      [x] + s
    else if x == s[0] then
      SplitFront(s);
      s
    else
      SplitFront(s);
      var rest := Insert(s[1..], x);
      InsertBehind(s, x, rest);
      [s[0]] + rest
  }

  lemma ElemsCons(a: real, s: seq<real>)
    ensures Elems([a] + s) == {a} + Elems(s)
  {
  }

  /** An ascending sequence is its front element followed by larger ones. */
  lemma SplitFront(s: seq<real>)
    requires Increasing(s) && s != []
    ensures Elems(s) == {s[0]} + Elems(s[1..])
    ensures Increasing(s[1..])
  {
    assert s == [s[0]] + s[1..];
    ElemsCons(s[0], s[1..]);
  }

  /** A value below the front goes in front. */
  lemma InsertFront(x: real, s: seq<real>)
    requires Increasing(s) && s != [] && x < s[0]
    ensures Increasing([x] + s)
    ensures Elems([x] + s) == Elems(s) + {x}
  {
    BelowIncreasing(x, s);
    ElemsCons(x, s);
  }

  /** A value above the front goes into the rest, which stays above the front. */
  lemma InsertBehind(s: seq<real>, x: real, rest: seq<real>)
    requires Increasing(s) && s != [] && s[0] < x
    requires Increasing(rest) && Elems(rest) == Elems(s[1..]) + {x}
    ensures Increasing([s[0]] + rest)
    ensures Elems([s[0]] + rest) == Elems(s) + {x}
  {
    SplitFront(s);
    forall j | 0 <= j < |rest| ensures s[0] < rest[j] {
      assert rest[j] in Elems(rest);
      if rest[j] != x {
        assert rest[j] in Elems(s[1..]);
        var i :| 0 <= i < |s[1..]| && s[1..][i] == rest[j];
        assert s[i + 1] == rest[j];
      }
    }
    BelowIncreasing(s[0], rest);
    ElemsCons(s[0], rest);
  }

  /** A value below every element of an ascending sequence can go in front of it. */
  lemma BelowIncreasing(a: real, s: seq<real>)
    requires Increasing(s)
    requires forall j :: 0 <= j < |s| ==> a < s[j]
    ensures Increasing([a] + s)
  {
    var t := [a] + s;
    forall i, j | 0 <= i < j < |t| ensures t[i] < t[j] {
      assert t[j] == s[j - 1];
      if i > 0 {
        assert t[i] == s[i - 1];
      }
    }
  }

  /** The set produced by inserting vs front to back, as an ascending sequence. */
  function DistinctSorted(vs: seq<real>): (s: seq<real>)
    ensures Increasing(s)
    ensures Elems(s) == Elems(vs)
  {
    if vs == [] then []
    else
      var n := |vs| - 1;
      assert vs == vs[..n] + [vs[n]];
      assert Elems(vs) == Elems(vs[..n]) + {vs[n]};
      Insert(DistinctSorted(vs[..n]), vs[n])
  }

  /** *std::next(sortedValues.begin(), k), or None when that iterator is past the
      last element (undefined behaviour in the source). */
  function SetMedian(vs: seq<real>, k: nat): (r: Option<real>)
    ensures r.Some? ==> r.value in vs
  {
    var s := DistinctSorted(vs);
    if k < |s| then
      assert s[k] in Elems(s);
      Some(s[k])
    else None
  }

  /** A strictly ascending sequence holds as many distinct values as it is long. */
  lemma {:induction false} IncreasingCard(s: seq<real>)
    requires Increasing(s)
    ensures |Elems(s)| == |s|
  {
    if s != [] {
      IncreasingCard(s[1..]);
      assert Elems(s) == {s[0]} + Elems(s[1..]);
      assert s[0] !in Elems(s[1..]);
    }
  }

  /** In a strictly ascending sequence exactly the first k elements lie below s[k]. */
  lemma IncreasingRank(s: seq<real>, k: nat)
    requires Increasing(s) && k < |s|
    ensures SmallerIn(s, s[k]) == Elems(s[..k])
    ensures |SmallerIn(s, s[k])| == k
  {
    assert Increasing(s[..k]);
    IncreasingCard(s[..k]);
  }

  /** The ordered set is determined by its elements: two ascending sequences with
      the same elements are equal. */
  lemma {:induction false} SortedSetUnique(a: seq<real>, b: seq<real>)
    requires Increasing(a) && Increasing(b)
    requires Elems(a) == Elems(b)
    ensures a == b
  {
    IncreasingCard(a);
    IncreasingCard(b);
    if a != [] {
      assert a[0] in Elems(b) && b[0] in Elems(a);
      assert a[0] == b[0];
      assert Elems(a[1..]) == Elems(a) - {a[0]};
      assert Elems(b[1..]) == Elems(b) - {b[0]};
      SortedSetUnique(a[1..], b[1..]);
      assert a == [a[0]] + a[1..];
      assert b == [b[0]] + b[1..];
    }
  }

  /** The set median exists exactly when the values hold more than k distinct numbers. */
  lemma SetMedianDefined(vs: seq<real>, k: nat)
    ensures SetMedian(vs, k).Some? <==> k < |Elems(vs)|
  {
    IncreasingCard(DistinctSorted(vs));
  }

  /** When it exists, the set median is a value of the window with exactly k distinct
      window values below it: index k of the ascending set of distinct values. */
  lemma SetMedianRank(vs: seq<real>, k: nat, r: real)
    requires SetMedian(vs, k) == Some(r)
    ensures r in vs
    ensures |SmallerIn(vs, r)| == k
  {
    var s := DistinctSorted(vs);
    IncreasingRank(s, k);
    assert s[k] in Elems(s);
    assert forall x :: x in vs <==> x in Elems(s);
    assert SmallerIn(vs, r) == SmallerIn(s, r);
  }

  /** With distinct values the set median is the true median: as many values of an
      odd-length window lie above it as below it. */
  lemma SetMedianOfDistinct(vs: seq<real>, k: nat, r: real)
    requires |vs| == 2 * k + 1
    requires forall i, j :: 0 <= i < j < |vs| ==> vs[i] != vs[j]
    ensures SetMedian(vs, k).Some?
    ensures SetMedian(vs, k) == Some(r) ==> |SmallerIn(vs, r)| == k && |Elems(vs) - SmallerIn(vs, r) - {r}| == k
  {
    DistinctCard(vs);
    SetMedianDefined(vs, k);
    if SetMedian(vs, k) == Some(r) {
      SetMedianRank(vs, k, r);
      assert SmallerIn(vs, r) <= Elems(vs) && r !in SmallerIn(vs, r) && r in Elems(vs);
      assert |Elems(vs) - SmallerIn(vs, r)| == |Elems(vs)| - |SmallerIn(vs, r)|;
    }
  }

  lemma {:induction false} DistinctCard(vs: seq<real>)
    requires forall i, j :: 0 <= i < j < |vs| ==> vs[i] != vs[j]
    ensures |Elems(vs)| == |vs|
  {
    if vs != [] {
      DistinctCard(vs[1..]);
      assert Elems(vs) == {vs[0]} + Elems(vs[1..]);
      assert vs[0] !in Elems(vs[1..]);
    }
  }

  /** The set median read off any ascending sequence with the window's elements. */
  lemma SetMedianFrom(vs: seq<real>, k: nat, s: seq<real>)
    requires Increasing(s) && Elems(s) == Elems(vs)
    ensures SetMedian(vs, k) == if k < |s| then Some(s[k]) else None
  {
    SortedSetUnique(DistinctSorted(vs), s);
  }

  /** Window [5, 1, 3] with radius 1: the median is 3. */
  lemma MedianOfThree()
    ensures SetMedian([5.0, 1.0, 3.0], 1) == Some(3.0)
  {
    var vs, s := [5.0, 1.0, 3.0], [1.0, 3.0, 5.0];
    assert forall y :: y in vs <==> y in s;
    SetMedianFrom(vs, 1, s);
  }

  /** Window [1, 1, 1] with radius 1: the set is {1} and index 1 is past its end. */
  lemma MedianPastEnd()
    ensures SetMedian([1.0, 1.0, 1.0], 1) == None
  {
    var vs, s := [1.0, 1.0, 1.0], [1.0];
    assert forall y :: y in vs <==> y in s;
    SetMedianFrom(vs, 1, s);
  }

  /** Window [1, 1, 2, 3, 4] with radius 2: the set is {1, 2, 3, 4} and index 2 gives 3,
      where the middle of the sorted window (with duplicates) is 2. */
  lemma MedianSkipsDuplicates()
    ensures SetMedian([1.0, 1.0, 2.0, 3.0, 4.0], 2) == Some(3.0)
  {
    var vs, s := [1.0, 1.0, 2.0, 3.0, 4.0], [1.0, 2.0, 3.0, 4.0];
    assert forall y :: y in vs <==> y in s;
    SetMedianFrom(vs, 2, s);
  }
}
