/** std::lower_bound on a sequence of numbers that need not be sorted. */
module Bisection {

  predicate Ascending(a: seq<nat>) { forall i, j | 0 <= i < j < |a| :: a[i] <= a[j] }

  /** Where bisection of the len elements from k on ends. */
  function Bisect(a: seq<nat>, x: nat, k: nat, len: nat): (r: nat)
    requires k + len <= |a|
    ensures k <= r <= k + len
    decreases len
  {
    if len == 0 then k
    else
      var half := len / 2;
      if a[k + half] < x then Bisect(a, x, k + half + 1, len - half - 1) else Bisect(a, x, k, half)
  }

  /** The elements before lo are below x, those from hi on are not. */
  predicate Splits(a: seq<nat>, x: nat, lo: nat, hi: nat)
    requires lo <= |a|
  {
    (forall i | 0 <= i < lo :: a[i] < x) && (forall i | hi <= i < |a| :: a[i] >= x)
  }

  lemma SplitsAt(a: seq<nat>, x: nat, lo: nat, hi: nat, mid: nat)
    requires Ascending(a) && lo <= mid < |a| && Splits(a, x, lo, hi)
    ensures if a[mid] < x then Splits(a, x, mid + 1, hi) else Splits(a, x, lo, mid)
  {
  }

  /** In an ascending sequence it ends at the first element that is not below x. */
  lemma {:induction false} BisectAscending(a: seq<nat>, x: nat, k: nat, len: nat)
    requires Ascending(a) && k + len <= |a| && Splits(a, x, k, k + len)
    ensures var r := Bisect(a, x, k, len); Splits(a, x, r, r)
    decreases len
  {
    if len > 0 {
      var half := len / 2;
      var mid := k + half;
      SplitsAt(a, x, k, k + len, mid);
      if a[mid] < x {
        assert mid + 1 + (len - half - 1) == k + len;
        BisectAscending(a, x, mid + 1, len - half - 1);
      } else {
        BisectAscending(a, x, k, half);
      }
    }
  }

  /** Where nothing is below x, bisection ends at the start. */
  lemma {:induction false} BisectStays(a: seq<nat>, x: nat, k: nat, len: nat)
    requires k + len <= |a| && forall i | k <= i < k + len :: a[i] >= x
    ensures Bisect(a, x, k, len) == k
    decreases len
  {
    if len > 0 {
      BisectStays(a, x, k, len / 2);
    }
  }

  /** The elements from b to j are all equal. */
  predicate Level(a: seq<nat>, b: nat, j: nat) {
    b <= j < |a| && forall i | b <= i <= j :: a[i] == a[j]
  }

  /** Bisection for the element at j finds the start of a level run that reaches j. */
  predicate Found(a: seq<nat>, k: nat, len: nat, j: nat)
    requires k + len <= |a| && j < |a|
  {
    Level(a, Bisect(a, a[j], k, len), j)
  }

  predicate AllFound(a: seq<nat>, k: nat, len: nat)
    requires k + len <= |a|
  {
    forall j: nat | k <= j < k + len :: Found(a, k, len, j)
  }

  /** The middle element separates the range when every element of it is found. */
  lemma MiddleSeparates(a: seq<nat>, k: nat, len: nat, j: nat)
    requires 0 < len && k + len <= |a| && k <= j < k + len && Found(a, k, len, j)
    ensures var mid := k + len / 2;
            (j <= mid ==> a[j] <= a[mid]) && (j >= mid ==> a[mid] <= a[j])
            && (j > mid && a[j] == a[mid] ==> Level(a, mid, j))
  {
    var half := len / 2;
    var mid := k + half;
    if a[mid] < a[j] {
      assert Bisect(a, a[j], k, len) == Bisect(a, a[j], mid + 1, len - half - 1);
    } else {
      assert Bisect(a, a[j], k, len) == Bisect(a, a[j], k, half) <= mid;
    }
  }

  /** What is found in the range is found in the half it lies in. */
  lemma FoundInHalf(a: seq<nat>, k: nat, len: nat, j: nat)
    requires 0 < len && k + len <= |a| && k <= j < k + len && AllFound(a, k, len)
    ensures var half := len / 2;
            && (j < k + half ==> Found(a, k, half, j))
            && (j > k + half ==> Found(a, k + half + 1, len - half - 1, j))
  {
    var half := len / 2;
    var mid := k + half;
    MiddleSeparates(a, k, len, j);
    if j > mid && a[j] == a[mid] {
      forall i: nat | mid < i < k + len ensures a[i] >= a[j] {
        MiddleSeparates(a, k, len, i);
      }
      BisectStays(a, a[j], mid + 1, len - half - 1);
    }
  }

  lemma AllFoundInHalves(a: seq<nat>, k: nat, len: nat)
    requires 0 < len && k + len <= |a| && AllFound(a, k, len)
    ensures var half := len / 2; AllFound(a, k, half) && AllFound(a, k + half + 1, len - half - 1)
  {
    var half := len / 2;
    forall j: nat | k <= j < k + half ensures Found(a, k, half, j) {
      FoundInHalf(a, k, len, j);
    }
    var next, rest := k + half + 1, len - half - 1;
    forall j: nat | next <= j < next + rest ensures Found(a, next, rest, j) {
      FoundInHalf(a, k, len, j);
    }
  }

  /** A sequence in which bisection finds every element is ascending. */
  lemma {:induction false} FoundMeansAscending(a: seq<nat>, k: nat, len: nat)
    requires k + len <= |a| && AllFound(a, k, len)
    ensures forall i, j | k <= i < j < k + len :: a[i] <= a[j]
    decreases len
  {
    if len > 0 {
      var half := len / 2;
      AllFoundInHalves(a, k, len);
      FoundMeansAscending(a, k, half);
      FoundMeansAscending(a, k + half + 1, len - half - 1);
      forall i: nat | k <= i < k + len
        ensures (i <= k + half ==> a[i] <= a[k + half]) && (i >= k + half ==> a[k + half] <= a[i])
      {
        MiddleSeparates(a, k, len, i);
      }
    }
  }

  /** The end of the run of elements equal to x that starts at k. */
  function RunEnd(a: seq<nat>, x: nat, k: nat): (m: nat)
    requires k <= |a|
    ensures k <= m <= |a| && (forall i | k <= i < m :: a[i] == x) && (m < |a| ==> a[m] != x)
    decreases |a| - k
  {
    if k < |a| && a[k] == x then RunEnd(a, x, k + 1) else k
  }
}
