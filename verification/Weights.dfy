/** Weighted sampling: choosing an index in proportion to its weight, and choosing a
    subset of indices to remove. Random values are arbitrary. */
module Weights {

  // -------------------------------------------------------------------- sums

  function Sum(w: seq<nat>): nat {
    if w == [] then 0 else Sum(w[..|w| - 1]) + w[|w| - 1]
  }

  /** Element i is the sum of the first i + 1 weights. */
  function Sums(w: seq<nat>): (r: seq<nat>)
    ensures |r| == |w|
  {
    if w == [] then [] else Sums(w[..|w| - 1]) + [Sum(w)]
  }

  lemma SumStep(w: seq<nat>, i: nat)
    requires i < |w|
    ensures Sum(w[..i + 1]) == Sum(w[..i]) + w[i]
    ensures Sums(w[..i + 1]) == Sums(w[..i]) + [Sum(w[..i + 1])]
  {
    assert w[..i + 1][..i] == w[..i];
  }

  lemma {:induction false} SumsAt(w: seq<nat>, i: nat)
    requires i < |w|
    ensures Sums(w)[i] == Sum(w[..i + 1])
  {
    if i == |w| - 1 {
      assert w[..i + 1] == w;
    } else {
      SumsAt(w[..|w| - 1], i);
      assert w[..|w| - 1][..i + 1] == w[..i + 1];
    }
  }

  lemma {:induction false} SumMonotone(w: seq<nat>, i: nat, j: nat)
    requires i <= j <= |w|
    ensures Sum(w[..i]) <= Sum(w[..j])
    decreases j
  {
    if i < j {
      SumStep(w, j - 1);
      SumMonotone(w, i, j - 1);
    }
  }

  predicate SomePositive(w: seq<nat>) { exists i | 0 <= i < |w| :: w[i] > 0 }

  lemma {:induction false} SumPositive(w: seq<nat>)
    ensures Sum(w) > 0 <==> SomePositive(w)
  {
    if w != [] {
      var init := w[..|w| - 1];
      SumPositive(init);
      if SomePositive(w) && w[|w| - 1] == 0 {
        var i :| 0 <= i < |w| && w[i] > 0;
        assert init[i] > 0;
      }
      if SomePositive(init) {
        var i :| 0 <= i < |init| && init[i] > 0;
        assert w[i] > 0;
      }
    }
  }

  // ---------------------------------------------------------------- drawing

  /** Index k is drawn by the random value x. */
  predicate Draws(w: seq<nat>, x: nat, k: nat) {
    k < |w| && Sum(w[..k]) <= x < Sum(w[..k + 1])
  }

  /** A random value below the total draws exactly one index, of positive weight. */
  lemma DrawsOne(w: seq<nat>, x: nat, j: nat, k: nat)
    requires Draws(w, x, j) && Draws(w, x, k)
    ensures j == k && w[k] > 0
  {
    SumStep(w, k);
    if j < k {
      SumMonotone(w, j + 1, k);
    } else if k < j {
      SumMonotone(w, k + 1, j);
    }
  }

  lemma {:induction false} SomeDraw(w: seq<nat>, x: nat) returns (k: nat)
    requires x < Sum(w)
    ensures Draws(w, x, k)
    decreases |w|
  {
    var n := |w| - 1;
    assert w[..n + 1] == w;
    if x >= Sum(w[..n]) {
      k := n;
    } else {
      k := SomeDraw(w[..n], x);
      assert w[..n][..k] == w[..k] && w[..n][..k + 1] == w[..k + 1];
    }
  }

  function Interval(lo: nat, hi: nat): (s: set<nat>)
    requires lo <= hi
    ensures |s| == hi - lo && forall x :: x in s <==> lo <= x < hi
  {
    if lo == hi then {} else Interval(lo, hi - 1) + {hi - 1}
  }

  /** Index k is drawn by exactly w[k] of the random values. */
  lemma DrawCount(w: seq<nat>, k: nat)
    requires k < |w|
    ensures |set x | 0 <= x < Sum(w) && Draws(w, x, k)| == w[k]
  {
    SumStep(w, k);
    SumMonotone(w, k + 1, |w|);
    assert w[..|w|] == w;
    assert (set x | 0 <= x < Sum(w) && Draws(w, x, k)) == Interval(Sum(w[..k]), Sum(w[..k + 1]));
  }

  /** std::upper_bound: the first element greater than x. */
  method UpperBound(a: seq<nat>, x: nat) returns (k: nat)
    requires forall i, j | 0 <= i < j < |a| :: a[i] <= a[j]
    ensures k <= |a|
    ensures forall i | 0 <= i < k :: a[i] <= x
    ensures forall i | k <= i < |a| :: a[i] > x
  {
    k := 0;
    var len: nat := |a|;
    while len > 0
      invariant k + len <= |a|
      invariant forall i | 0 <= i < k :: a[i] <= x
      invariant forall i | k + len <= i < |a| :: a[i] > x
    {
      var half := len / 2;
      if a[k + half] <= x {
        k := k + half + 1;
        len := len - half - 1;
      } else {
        len := half;
      }
    }
  }

  // ----------------------------------------------------------- index subsets

  /** The elements whose index is not in `gone`, in their order. */
  function Without<T>(s: seq<T>, gone: set<nat>): seq<T> {
    if s == [] then []
    else Without(s[..|s| - 1], gone) + if |s| - 1 in gone then [] else [s[|s| - 1]]
  }

  lemma WithoutStep<T>(s: seq<T>, gone: set<nat>, i: nat)
    requires i < |s|
    ensures Without(s[..i + 1], gone) == Without(s[..i], gone) + if i in gone then [] else [s[i]]
  {
    assert s[..i + 1][..i] == s[..i];
  }

  /** Sequences of one length keep one length, and corresponding elements stay together. */
  lemma {:induction false} WithoutTogether<A, B>(a: seq<A>, b: seq<B>, gone: set<nat>, k: nat) returns (i: nat)
    requires |a| == |b| && k < |Without(a, gone)|
    ensures i < |a| && i !in gone
    ensures |Without(b, gone)| == |Without(a, gone)| && Without(a, gone)[k] == a[i] && Without(b, gone)[k] == b[i]
  {
    var n := |a| - 1;
    WithoutSize(a, gone);
    WithoutSize(b, gone);
    if k < |Without(a[..n], gone)| {
      WithoutSize(a[..n], gone);
      WithoutSize(b[..n], gone);
      i := WithoutTogether(a[..n], b[..n], gone, k);
    } else {
      WithoutSize(a[..n], gone);
      WithoutSize(b[..n], gone);
      i := n;
    }
  }

  /** How many indices below n are in s. */
  function Below(s: set<nat>, n: nat): set<nat> { set k | k in s && k < n }

  lemma {:induction false} WithoutSize<T>(s: seq<T>, gone: set<nat>)
    ensures |Without(s, gone)| == |s| - |Below(gone, |s|)|
  {
    if s == [] {
      assert Below(gone, 0) == {};
    } else {
      var n := |s| - 1;
      WithoutSize(s[..n], gone);
      BelowStep(gone, n);
    }
  }

  /** An element that stays moves down by the number of those removed before it. */
  lemma {:induction false} WithoutAt<T>(s: seq<T>, gone: set<nat>, i: nat)
    requires i < |s| && i !in gone
    ensures 0 <= i - |Below(gone, i)| < |Without(s, gone)| && Without(s, gone)[i - |Below(gone, i)|] == s[i]
  {
    var n := |s| - 1;
    WithoutSize(s, gone);
    WithoutSize(s[..n], gone);
    if i < n {
      WithoutAt(s[..n], gone, i);
    }
  }

  lemma BelowStep(s: set<nat>, n: nat)
    ensures |Below(s, n + 1)| == |Below(s, n)| + if n in s then 1 else 0
  {
    if n in s {
      assert Below(s, n + 1) == Below(s, n) + {n};
    } else {
      assert Below(s, n + 1) == Below(s, n);
    }
  }

  predicate Increasing(a: seq<nat>) { forall i, j | 0 <= i < j < |a| :: a[i] < a[j] }

  function Members(a: seq<nat>): set<nat> { set k | k in a }

  lemma {:induction false} MembersSize(a: seq<nat>)
    requires Increasing(a)
    ensures |Members(a)| == |a|
  {
    if a != [] {
      var n := |a| - 1;
      MembersSize(a[..n]);
      assert a == a[..n] + [a[n]];
      assert Members(a) == Members(a[..n]) + {a[n]};
    }
  }

  /** Compacts a vector; `subset` is sorted and without duplicates. */
  method RemoveSubset<T>(subset: seq<nat>, s: seq<T>) returns (r: seq<T>)
    requires Increasing(subset) && forall k <- subset :: k < |s|
    ensures r == Without(s, Members(subset))
  {
    r := s;
    ghost var gone := Members(subset);
    var pos, j := 0, 0;
    for i := 0 to |s|
      invariant pos <= i && |r| == |s| && r[i..] == s[i..]
      invariant r[..pos] == Without(s[..i], gone)
      invariant j <= |subset| && (forall k | 0 <= k < j :: subset[k] < i) && (forall k | j <= k < |subset| :: i <= subset[k])
    {
      WithoutStep(s, gone, i);
      assert r[i] == s[i] && r[i..][1..] == r[i + 1..] && s[i..][1..] == s[i + 1..];
      assert i in gone <==> j < |subset| && i == subset[j];
      if j < |subset| && i == subset[j] {
        j := j + 1;
        continue;
      }
      SwapDown(r, pos, i);
      r := r[pos := r[i]][i := r[pos]];
      pos := pos + 1;
    }
    assert s[..|s|] == s;
    r := r[..pos];
  }

  lemma SwapDown<T>(r: seq<T>, pos: nat, i: nat)
    requires pos <= i < |r|
    ensures var r' := r[pos := r[i]][i := r[pos]]; r'[..pos + 1] == r[..pos] + [r[i]] && r'[i + 1..] == r[i + 1..]
  {
  }

  /** The indices below n that are in s, in ascending order. */
  function Ascending(s: set<nat>, n: nat): (a: seq<nat>)
    ensures Increasing(a) && Members(a) == Below(s, n)
  {
    if n == 0 then []
    else
      var rest := Ascending(s, n - 1);
      assert Members(rest + [n - 1]) == Members(rest) + {n - 1};
      assert forall k | 0 <= k < |rest| :: rest[k] in Members(rest);
      if n - 1 in s then rest + [n - 1] else rest
  }

  function Zeros(w: seq<nat>): set<nat> { set i | 0 <= i < |w| && w[i] == 0 }

  function NonZeros(w: seq<nat>, n: nat): set<nat>
    requires n <= |w|
  {
    set i | 0 <= i < n && w[i] != 0
  }

  lemma ZerosAndNonZeros(w: seq<nat>)
    ensures |Zeros(w)| + |NonZeros(w, |w|)| == |w|
  {
    assert Interval(0, |w|) == Zeros(w) + NonZeros(w, |w|);
  }

  /** The queue holds the up to `limit` smallest keys of `seen`. */
  ghost predicate Smallest(queue: set<nat>, seen: set<nat>, limit: nat, keys: seq<real>)
    requires forall k <- seen :: k < |keys|
  {
    && queue <= seen
    && |queue| == (if |seen| < limit then |seen| else limit)
    && forall q, k | q in queue && k in seen - queue :: keys[q] <= keys[k]
  }

  method Top(queue: set<nat>, keys: seq<real>) returns (top: nat)
    requires queue != {} && forall q <- queue :: q < |keys|
    ensures top in queue && forall q <- queue :: keys[q] <= keys[top]
  {
    top :| top in queue;
    var rest := queue - {top};
    while rest != {}
      invariant top in queue && rest <= queue && forall q <- queue - rest :: keys[q] <= keys[top]
    {
      var q :| q in rest;
      if keys[q] > keys[top] {
        top := q;
      }
      rest := rest - {q};
    }
  }

  /** One element of the reservoir. */
  method Offer(queue: set<nat>, ghost seen: set<nat>, limit: nat, keys: seq<real>, i: nat) returns (r: set<nat>)
    requires limit > 0 && i < |keys| && (forall k <- seen :: k < |keys|) && i !in seen
    requires Smallest(queue, seen, limit, keys)
    ensures Smallest(r, seen + {i}, limit, keys)
  {
    assert |seen + {i}| == |seen| + 1;
    if |queue| < limit {
      QueueIsAll(queue, seen, limit, keys);
      r := queue + {i};
      assert r == seen + {i};
    } else {
      var top := Top(queue, keys);
      if keys[i] < keys[top] {
        r := queue - {top} + {i};
        assert seen + {i} - r == seen - queue + {top};
      } else {
        r := queue;
        assert seen + {i} - r == seen - queue + {i};
      }
    }
  }

  lemma QueueIsAll(queue: set<nat>, seen: set<nat>, limit: nat, keys: seq<real>)
    requires (forall k <- seen :: k < |keys|) && Smallest(queue, seen, limit, keys) && |queue| < limit
    ensures queue == seen
  {
    assert seen == queue + (seen - queue);
  }

  /** The reservoir: the keys of all indices of non-zero weight are offered in turn. */
  method Reservoir(w: seq<nat>, limit: nat, keys: seq<real>) returns (queue: set<nat>)
    requires |keys| == |w| && limit > 0
    ensures Smallest(queue, NonZeros(w, |w|), limit, keys)
  {
    queue := {};
    for i := 0 to |w|
      invariant Smallest(queue, NonZeros(w, i), limit, keys)
    {
      if w[i] == 0 {
        assert NonZeros(w, i + 1) == NonZeros(w, i);
        continue;
      }
      assert NonZeros(w, i + 1) == NonZeros(w, i) + {i};
      queue := Offer(queue, NonZeros(w, i), limit, keys, i);
    }
  }

  method CollectZeros(w: seq<nat>) returns (res: seq<nat>)
    ensures Increasing(res) && Members(res) == Zeros(w) && |res| == |Zeros(w)|
  {
    res := [];
    for i := 0 to |w|
      invariant res == Ascending(Zeros(w), i)
    {
      if w[i] == 0 {
        res := res + [i];
      }
    }
    assert Below(Zeros(w), |w|) == Zeros(w);
    MembersSize(res);
  }

  /** How many indices of non-zero weight must go to reach the target. */
  function Excess(w: seq<nat>, target: nat): nat {
    ZerosAndNonZeros(w);
    var others := |w| - |Zeros(w)|;
    if others <= target then 0 else others - target
  }

  /** All zero-weight indices go, and of the others as many as exceed the target:
      those with the smallest random keys. */
  ghost predicate Chosen(w: seq<nat>, target: nat, keys: seq<real>, res: seq<nat>)
    requires |keys| == |w|
  {
    && Increasing(res) && (forall k <- res :: k < |w|)
    && Zeros(w) <= Members(res)
    && |res| == |Zeros(w)| + Excess(w, target)
    && forall i, j | i in res && i !in Zeros(w) && 0 <= j < |w| && j !in res :: keys[i] <= keys[j]
  }

  method RandomWeightedSubset(w: seq<nat>, target: nat, keys: seq<real>) returns (res: seq<nat>)
    requires |keys| == |w|
    ensures Chosen(w, target, keys, res)
  {
    res := CollectZeros(w);
    ZerosAndNonZeros(w);
    if |w| - |res| <= target {
      assert forall k <- res :: k in Members(res);
      return;
    }
    var toRemove := |w| - |res| - target;
    var queue := Reservoir(w, toRemove, keys);
    UnionChosen(w, target, keys, queue);
    res := Ascending(Members(res) + queue, |w|);
  }

  lemma UnionChosen(w: seq<nat>, target: nat, keys: seq<real>, queue: set<nat>)
    requires |keys| == |w| && Smallest(queue, NonZeros(w, |w|), Excess(w, target), keys)
    ensures Chosen(w, target, keys, Ascending(Zeros(w) + queue, |w|))
  {
    var all := Zeros(w) + queue;
    var res := Ascending(all, |w|);
    ZerosAndNonZeros(w);
    assert Below(all, |w|) == all;
    MembersSize(res);
    assert |all| == |Zeros(w)| + |queue|;
    assert forall k :: k in res <==> k in Members(res);
    forall i, j | i in res && i !in Zeros(w) && 0 <= j < |w| && j !in res ensures keys[i] <= keys[j] {
      assert i in queue && j in NonZeros(w, |w|) - queue;
    }
  }

  // ------------------------------------------------------------ distribution

  class WeightedDistribution {
    var weights: seq<nat>
    var cumulative: seq<nat>
    var cumulativeValid: bool

    predicate Sized()
      reads this
    {
      |weights| == |cumulative|
    }

    /** The flag can be trusted: it is, except between a removal and the next recomputation. */
    predicate Accurate()
      reads this
    {
      Sized() && (cumulativeValid ==> cumulative == Sums(weights))
    }

    constructor ()
      ensures weights == [] && cumulativeValid && Accurate()
    {
      weights, cumulative, cumulativeValid := [], [], true;
    }

    method AddWeight(weight: nat)
      requires Sized()
      modifies this
      ensures Sized() && weights == old(weights) + [weight] && cumulativeValid == old(cumulativeValid)
      ensures old(Accurate()) ==> Accurate()
    {
      weights := weights + [weight];
      SumStep(weights, |weights| - 1);
      assert weights[..|weights|] == weights && weights[..|weights| - 1] == old(weights);
      if cumulative == [] {
        cumulative := cumulative + [weight];
      } else {
        SumsAt(old(weights), |old(weights)| - 1);
        assert old(weights)[..|old(weights)|] == old(weights);
        cumulative := cumulative + [cumulative[|cumulative| - 1] + weight];
      }
    }

    method PopBack() returns (weight: nat)
      requires Sized() && weights != []
      modifies this
      ensures old(weights) == weights + [weight] && cumulativeValid == old(cumulativeValid)
      ensures Sized() && (old(Accurate()) ==> Accurate())
    {
      weight := weights[|weights| - 1];
      SumStep(weights, |weights| - 1);
      assert weights[..|weights|] == weights;
      weights := weights[..|weights| - 1];
      cumulative := cumulative[..|cumulative| - 1];
    }

    method ChangeWeight(idx: nat, weight: nat)
      requires Sized() && idx < |weights|
      modifies this
      ensures Accurate() && !cumulativeValid && weights == old(weights)[idx := weight]
    {
      weights := weights[idx := weight];
      cumulativeValid := false;
    }

    method RecomputeInternalState()
      requires Sized()
      modifies this
      ensures Accurate() && cumulativeValid && weights == old(weights)
    {
      var partialSum := 0;
      for i := 0 to |weights|
        invariant weights == old(weights) && Sized()
        invariant partialSum == Sum(weights[..i]) && cumulative[..i] == Sums(weights[..i])
      {
        SumStep(weights, i);
        partialSum := partialSum + weights[i];
        cumulative := cumulative[i := partialSum];
        assert cumulative[..i + 1] == cumulative[..i] + [partialSum];
      }
      assert weights[..|weights|] == weights && cumulative[..|weights|] == cumulative;
      cumulativeValid := true;
    }

    /** The index for the random value x, and for total weight 0 any index. The
        assertions are the checks of the source. */
    method RandomIndex(x: nat, any: nat) returns (k: nat)
      requires Accurate() && weights != [] && cumulativeValid
      requires Sum(weights) > 0 ==> x < Sum(weights)
      ensures k < |weights|
      ensures Sum(weights) > 0 ==> Draws(weights, x, k)
    {
      ghost var n := |weights| - 1;
      SumsAt(weights, n);
      assert weights[..n + 1] == weights;
      var sum := cumulative[|cumulative| - 1];
      if sum == 0 {
        return any % |weights|;
      }
      SumsSorted(weights);
      k := UpperBound(cumulative, x);
      assert cumulative[n] > x;
      assert k != |cumulative|;
      SumsAt(weights, k);
      if k > 0 {
        SumsAt(weights, k - 1);
        assert cumulative[k - 1] <= x;
      }
      DrawsOne(weights, x, k, k);
      assert weights[k] != 0;
    }

    /** Removes the subset from both vectors; the flag is left alone. */
    method RemoveRandomWeightedSubset(target: nat, keys: seq<real>) returns (subset: seq<nat>)
      requires Sized() && |keys| == |weights|
      modifies this
      ensures Chosen(old(weights), target, keys, subset)
      ensures Sized() && weights == Without(old(weights), Members(subset)) && cumulativeValid == old(cumulativeValid)
      ensures |weights| == |old(weights)| - |subset|
    {
      subset := RandomWeightedSubset(weights, target, keys);
      RemovedSize(weights, subset);
      RemovedSize(cumulative, subset);
      weights := RemoveSubset(subset, weights);
      cumulative := RemoveSubset(subset, cumulative);
    }
  }

  lemma SumsSorted(w: seq<nat>)
    ensures forall i, j | 0 <= i < j < |w| :: Sums(w)[i] <= Sums(w)[j]
  {
    forall i, j | 0 <= i < j < |w| ensures Sums(w)[i] <= Sums(w)[j] {
      SumsAt(w, i);
      SumsAt(w, j);
      SumMonotone(w, i + 1, j + 1);
    }
  }

  lemma RemovedSize<T>(s: seq<T>, subset: seq<nat>)
    requires Increasing(subset) && forall k <- subset :: k < |s|
    ensures |Without(s, Members(subset))| == |s| - |subset|
  {
    WithoutSize(s, Members(subset));
    MembersSize(subset);
    assert Below(Members(subset), |s|) == Members(subset);
  }
}
