/** The arithmetic mean as MovingAverageFilter::processData computes it: the window's
    values are summed front to back and the sum is divided by the window width. */
module Mean {

  /** The running sum of the accumulating loop after it has seen all of vs. */
  function Sum(vs: seq<real>): real
  {
    if vs == [] then 0.0 else Sum(vs[..|vs| - 1]) + vs[|vs| - 1]
  }

  /** The sum divided by the width: multiplying back by the width recovers the sum. */
  function Average(vs: seq<real>, width: nat): (a: real)
    requires width > 0
    ensures a * width as real == Sum(vs)
  {
    Sum(vs) / width as real
  }

  /** Summing two parts separately and adding the results gives the sum of the whole. */
  lemma {:induction false} SumAppend(a: seq<real>, b: seq<real>)
    ensures Sum(a + b) == Sum(a) + Sum(b)
  {
    if b != [] {
      var n := |b| - 1;
      assert (a + b)[..|a + b| - 1] == a + b[..n];
      SumAppend(a, b[..n]);
    } else {
      assert a + b == a;
    }
  }

  /** Sliding the window one step (new value x at the front, oldest value last dropped
      from the back) changes the sum by exactly the new value minus the dropped one. */
  lemma SlidingSum(kept: seq<real>, x: real, last: real)
    ensures Sum([x] + kept) == Sum(kept + [last]) + x - last
  {
    SumAppend([x], kept);
    SumOne(x);
    SumAppend(kept, [last]);
    SumOne(last);
  }

  lemma SumOne(x: real)
    ensures Sum([x]) == x
  {
    assert [x][..0] == [];
  }

  /** Values bounded by lo and hi have a sum between |vs|*lo and |vs|*hi. */
  lemma {:induction false} SumBounds(vs: seq<real>, lo: real, hi: real)
    requires forall i :: 0 <= i < |vs| ==> lo <= vs[i] <= hi
    ensures |vs| as real * lo <= Sum(vs) <= |vs| as real * hi
  {
    if vs != [] {
      SumBounds(vs[..|vs| - 1], lo, hi);
    }
  }

  /** The mean of a full window lies between any lower and upper bound of its values. */
  lemma AverageWithinBounds(vs: seq<real>, lo: real, hi: real)
    requires |vs| > 0
    requires forall i :: 0 <= i < |vs| ==> lo <= vs[i] <= hi
    ensures lo <= Average(vs, |vs|) <= hi
  {
    SumBounds(vs, lo, hi);
    var n := |vs| as real;
    assert n * lo / n == lo && n * hi / n == hi;
  }

  /** A window whose values are all c has mean c. */
  lemma AverageOfConstant(vs: seq<real>, c: real)
    requires |vs| > 0
    requires forall i :: 0 <= i < |vs| ==> vs[i] == c
    ensures Average(vs, |vs|) == c
  {
    AverageWithinBounds(vs, c, c);
  }

  /** Window [5, 1, 3]: the mean is 3.0. */
  lemma AverageOfThree()
    ensures Average([5.0, 1.0, 3.0], 3) == 3.0
  {
    assert [5.0, 1.0, 3.0][..2] == [5.0, 1.0];
    assert [5.0, 1.0][..1] == [5.0];
    assert [5.0][..0] == [];
  }
}
