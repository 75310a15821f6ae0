/** The corpus: records with features, one weight per record, and pruning. Floating
    point is modelled by real numbers. */
module Corpora {
  import opened Bytes
  import opened Features
  import opened FeatureSets
  import opened RunnerResults
  import opened Weights

  datatype Record = Record(data: seq<U8>, features: seq<Feature>, metadata: seq<U8>, stats: Stats)

  datatype WeightMethod = Uniform | Recency | FeatureRarity

  /** The coverage frontier as the corpus sees it: one mark and one weight per block. */
  datatype Frontier = Frontier(marked: seq<bool>, weights: seq<nat>)

  type FrontierView = f: Frontier | |f.marked| == |f.weights| witness Frontier([], [])

  const NO_STATS := Stats(0, 0, 0, 0)
  const WEIGHT_SCALE: nat := 0x1_0000

  // ---------------------------------------------------------- record weights

  function FrontierTerm(f: Feature, frontier: FrontierView): nat {
    var pc := f - PCS_DOMAIN * DOMAIN_SIZE;
    if InDomain(PCS_DOMAIN, f) && 0 <= pc < |frontier.marked| && frontier.marked[pc] then frontier.weights[pc] else 0
  }

  function FrontierSum(fv: seq<Feature>, frontier: FrontierView): nat {
    if fv == [] then 0
    else FrontierSum(fv[..|fv| - 1], frontier) + FrontierTerm(fv[|fv| - 1], frontier)
  }

  method ComputeFrontierWeight(fv: seq<Feature>, frontier: FrontierView) returns (weight: nat)
    ensures weight == 1 + FrontierSum(fv, frontier)
  {
    if |frontier.marked| == 0 {
      NoFrontier(fv, frontier);
      return 1;
    }
    var sum := 0;
    for i := 0 to |fv|
      invariant sum == FrontierSum(fv[..i], frontier)
    {
      assert fv[..i + 1][..i] == fv[..i];
      if !InDomain(PCS_DOMAIN, fv[i]) {
        continue;
      }
      var pc := fv[i] - PCS_DOMAIN * DOMAIN_SIZE;
      if pc >= |frontier.marked| {
        continue;
      }
      if frontier.marked[pc] {
        sum := sum + frontier.weights[pc];
      }
    }
    assert fv[..|fv|] == fv;
    return sum + 1;
  }

  lemma {:induction false} NoFrontier(fv: seq<Feature>, frontier: FrontierView)
    requires |frontier.marked| == 0
    ensures FrontierSum(fv, frontier) == 0
  {
    if fv != [] {
      NoFrontier(fv[..|fv| - 1], frontier);
    }
  }

  /** What block i adds when its feature is present, and that features of the other
      domains and of blocks beyond the table add nothing. */
  lemma FrontierOfOne(f: Feature, frontier: FrontierView)
    ensures FrontierSum([f], frontier) ==
            var i := f - 0x800_0000;
            if 0 <= i < 0x800_0000 && i < |frontier.marked| && frontier.marked[i] then frontier.weights[i] else 0
  {
    assert [f][..0] == [];
  }

  lemma {:induction false} FrontierConcat(a: seq<Feature>, b: seq<Feature>, frontier: FrontierView)
    ensures FrontierSum(a + b, frontier) == FrontierSum(a, frontier) + FrontierSum(b, frontier)
  {
    if b == [] {
      assert a + b == a;
    } else {
      FrontierConcat(a, b[..|b| - 1], frontier);
      assert (a + b)[..|a + b| - 1] == a + b[..|b| - 1];
    }
  }

  predicate AllMerged(records: seq<Record>, m: multiset<Feature>) {
    forall i | 0 <= i < |records| :: RecordMerged(records[i], m)
  }

  predicate RecordMerged(r: Record, m: multiset<Feature>) { Merged(r.features, m) }

  predicate Merged(fv: seq<Feature>, m: multiset<Feature>) { forall f <- fv :: f in m }

  lemma MergedKeys(fv: seq<Feature>, m: multiset<Feature>)
    requires Merged(fv, m)
    ensures forall f <- fv :: Key(f) in Keys(m)
  {
  }

  /** What the weight of a record depends on. */
  datatype Weighing = Weighing(
    threshold: nat, discarded: set<nat>, merged: multiset<Feature>, how: WeightMethod, frontier: FrontierView)

  ghost function WeighingOf(fs: FeatureSet, how: WeightMethod, frontier: FrontierView): Weighing
    reads fs
  {
    Weighing(fs.threshold, fs.discarded, fs.merged, how, frontier)
  }

  function PrunedRecord(c: Weighing, r: Record): Record {
    r.(features := Kept(c.threshold, c.discarded, c.merged, r.features))
  }

  lemma PrunedMerged(c: Weighing, r: Record)
    requires c.threshold >= 1 && RecordMerged(r, c.merged)
    ensures RecordMerged(PrunedRecord(c, r), c.merged)
    ensures Fresh(c.discarded, c.merged, r.features) == 0
  {
    KeptMembers(c.threshold, c.discarded, c.merged, r.features);
    FreshFeatures(c.threshold, c.discarded, c.merged, r.features);
  }

  function BaseWeight(c: Weighing, i: nat, fv: seq<Feature>): nat
    requires c.threshold >= 1 && Merged(fv, c.merged)
  {
    match c.how
    case Uniform => 1
    case Recency => i + 1
    case FeatureRarity =>
      MergedKeys(fv, c.merged);
      Rarity(c.threshold, c.merged, fv)
  }

  /** The weight of the i-th record before scaling. */
  function RawWeight(c: Weighing, i: nat, r: Record): nat
    requires c.threshold >= 1 && RecordMerged(r, c.merged)
  {
    if r.features == [] then 0 else Product(BaseWeight(c, i, r.features), 1 + FrontierSum(r.features, c.frontier))
  }

  /** It is zero exactly when no feature is left. */
  lemma RawWeightPositive(c: Weighing, i: nat, r: Record)
    requires 1 <= c.threshold < 0x100 && RecordMerged(r, c.merged)
    ensures RawWeight(c, i, r) > 0 <==> r.features != []
  {
    if r.features != [] {
      MergedKeys(r.features, c.merged);
      RarityPositive(c.threshold, c.merged, r.features);
      ProductPositive(BaseWeight(c, i, r.features), 1 + FrontierSum(r.features, c.frontier));
    }
  }

  /** The three methods against each other: recency multiplies the uniform weight by the
      age of the record from the oldest on, rarity by the rarity of its features, and
      the uniform weight is the frontier factor. */
  lemma WeightsCompared(c: Weighing, i: nat, r: Record)
    requires c.threshold >= 1 && RecordMerged(r, c.merged) && r.features != []
    ensures RawWeight(c.(how := Uniform), i, r) == 1 + FrontierSum(r.features, c.frontier)
    ensures RawWeight(c.(how := Recency), i, r) == (i + 1) * RawWeight(c.(how := Uniform), i, r)
    ensures (forall f <- r.features :: Key(f) in Keys(c.merged)) &&
            RawWeight(c.(how := FeatureRarity), i, r) ==
            Rarity(c.threshold, c.merged, r.features) * RawWeight(c.(how := Uniform), i, r)
  {
    MergedKeys(r.features, c.merged);
  }

  lemma ProductPositive(a: nat, b: nat)
    requires a > 0 && b > 0
    ensures Product(a, b) > 0
  {
  }

  method ComputeBaseWeight(fs: FeatureSet, how: WeightMethod, frontier: FrontierView, i: nat, fv: seq<Feature>)
    returns (base: nat)
    requires fs.Valid() && Merged(fv, fs.merged)
    ensures base == BaseWeight(WeighingOf(fs, how, frontier), i, fv)
  {
    MergedKeys(fv, fs.merged);
    match how {
      case Uniform => base := 1;
      case Recency => base := i + 1;
      case FeatureRarity => base := fs.ComputeRarityWeight(fv);
    }
  }

  /** Pruning a record that was merged finds nothing unseen: the assertion is the
      check of UpdateWeights. */
  method PruneRecord(fs: FeatureSet, ghost c: Weighing, r: Record) returns (pruned: Record)
    requires fs.Valid() && c == WeighingOf(fs, c.how, c.frontier) && RecordMerged(r, c.merged)
    ensures pruned == PrunedRecord(c, r) && RecordMerged(pruned, c.merged)
  {
    PrunedMerged(c, r);
    var kept, unseen := fs.PruneFeaturesAndCountUnseen(r.features);
    assert unseen == 0;
    pruned := r.(features := kept);
  }

  method WeighFeatures(fs: FeatureSet, how: WeightMethod, frontier: FrontierView, i: nat, r: Record) returns (weight: nat)
    requires fs.Valid() && RecordMerged(r, fs.merged)
    ensures weight == RawWeight(WeighingOf(fs, how, frontier), i, r)
  {
    if r.features == [] {
      return 0;
    }
    var base := ComputeBaseWeight(fs, how, frontier, i, r.features);
    var factor := ComputeFrontierWeight(r.features, frontier);
    return Product(base, factor);
  }

  function PrunedRecords(c: Weighing, records: seq<Record>): (r: seq<Record>)
    ensures |r| == |records| && forall i | 0 <= i < |r| :: r[i] == PrunedRecord(c, records[i])
  {
    seq(|records|, i requires 0 <= i < |records| => PrunedRecord(c, records[i]))
  }

  /** The first loop of UpdateWeights: prune each record's features and weigh it. */
  method WeighRecords(fs: FeatureSet, how: WeightMethod, frontier: FrontierView, records: seq<Record>)
    returns (pruned: seq<Record>, weights: seq<real>)
    requires fs.Valid() && AllMerged(records, fs.merged)
    ensures AllMerged(pruned, fs.merged)
    ensures pruned == PrunedRecords(WeighingOf(fs, how, frontier), records)
    ensures weights == RawWeights(WeighingOf(fs, how, frontier), pruned)
  {
    pruned, weights := [], [];
    ghost var c := WeighingOf(fs, how, frontier);
    for i := 0 to |records|
      invariant AllMerged(pruned, c.merged) && pruned == PrunedRecords(c, records[..i])
      invariant weights == RawWeights(c, pruned)
    {
      PrunedRecordsSnoc(c, records, i);
      var record := PruneRecord(fs, c, records[i]);
      var weight := WeighFeatures(fs, how, frontier, i, record);
      RawWeightsSnoc(c, pruned, record);
      pruned, weights := pruned + [record], weights + [weight as real];
    }
    assert records[..|records|] == records;
  }

  lemma PrunedRecordsSnoc(c: Weighing, records: seq<Record>, i: nat)
    requires i < |records|
    ensures PrunedRecords(c, records[..i + 1]) == PrunedRecords(c, records[..i]) + [PrunedRecord(c, records[i])]
  {
  }

  function RawWeights(c: Weighing, records: seq<Record>): (w: seq<real>)
    requires c.threshold >= 1 && AllMerged(records, c.merged)
    ensures |w| == |records|
  {
    if records == [] then []
    else
      var n := |records| - 1;
      RawWeights(c, records[..n]) + [RawWeight(c, n, records[n]) as real]
  }

  lemma RawWeightsSnoc(c: Weighing, records: seq<Record>, r: Record)
    requires c.threshold >= 1 && AllMerged(records, c.merged) && RecordMerged(r, c.merged)
    ensures AllMerged(records + [r], c.merged)
    ensures RawWeights(c, records + [r]) == RawWeights(c, records) + [RawWeight(c, |records|, r) as real]
  {
    var all, n := records + [r], |records|;
    assert all[..n] == records && all[n] == r;
    AllMergedAppend(records, r, c.merged);
    RawWeightsOf(c, all, records, r);
  }

  lemma AllMergedAppend(records: seq<Record>, r: Record, m: multiset<Feature>)
    requires AllMerged(records, m) && RecordMerged(r, m)
    ensures AllMerged(records + [r], m)
  {
    assert forall i | 0 <= i < |records| :: (records + [r])[i] == records[i];
  }

  lemma RawWeightsOf(c: Weighing, all: seq<Record>, init: seq<Record>, last: Record)
    requires c.threshold >= 1 && AllMerged(all, c.merged) && AllMerged(init, c.merged) && RecordMerged(last, c.merged)
    requires |all| == |init| + 1 && all[..|init|] == init && all[|init|] == last
    ensures RawWeights(c, all) == RawWeights(c, init) + [RawWeight(c, |init|, last) as real]
  {
  }

  lemma {:induction false} RawWeightsAt(c: Weighing, records: seq<Record>, i: nat)
    requires c.threshold >= 1 && AllMerged(records, c.merged) && i < |records|
    ensures RawWeights(c, records)[i] == RawWeight(c, i, records[i]) as real
  {
    if i < |records| - 1 {
      RawWeightsAt(c, records[..|records| - 1], i);
    }
  }

  // --------------------------------------------------------- execution times

  function Timed(records: seq<Record>): nat {
    if records == [] then 0
    else Timed(records[..|records| - 1]) + if records[|records| - 1].stats == NO_STATS then 0 else 1
  }

  function TotalTime(records: seq<Record>): real {
    if records == [] then 0.0
    else TotalTime(records[..|records| - 1]) + records[|records| - 1].stats.exec as real
  }

  function AverageTime(records: seq<Record>): real {
    if Timed(records) == 0 then 0.0 else TotalTime(records) / Timed(records) as real
  }

  function TimeFactor(stats: Stats, average: real): (f: real)
    ensures 0.1 <= f <= 3.0
  {
    var t := stats.exec as real;
    if stats == NO_STATS then 1.0
    else if t > average * 10.0 then 0.1
    else if t > average * 4.0 then 0.25
    else if t > average * 2.0 then 0.5
    else if t * 3.0 > average * 4.0 then 0.75
    else if t * 4.0 < average then 3.0
    else if t * 3.0 < average then 2.0
    else if t * 2.0 < average then 1.5
    else 1.0
  }

  /** Of two timed records the slower one never gets the larger factor. */
  lemma TimeFactorMonotone(a: Stats, b: Stats, average: real)
    requires a != NO_STATS && b != NO_STATS && average >= 0.0 && a.exec <= b.exec
    ensures TimeFactor(b, average) <= TimeFactor(a, average)
  {
  }

  /** The thresholds of the ladder.  A record without statistics keeps its weight. */
  lemma TimeLadder(stats: Stats, average: real)
    requires average >= 0.0
    ensures stats == NO_STATS ==> TimeFactor(stats, average) == 1.0
    ensures stats != NO_STATS ==>
              var f, t := TimeFactor(stats, average), stats.exec as real;
              && f in {0.1, 0.25, 0.5, 0.75, 1.0, 1.5, 2.0, 3.0}
              && (f <= 0.1 <==> t > 10.0 * average) && (f <= 0.25 <==> t > 4.0 * average)
              && (f <= 0.5 <==> t > 2.0 * average) && (f <= 0.75 <==> 3.0 * t > 4.0 * average)
              && (f >= 3.0 <==> 4.0 * t < average) && (f >= 2.0 <==> 3.0 * t < average)
              && (f >= 1.5 <==> 2.0 * t < average)
  {
  }

  lemma {:induction false} TimesConcat(a: seq<Record>, b: seq<Record>)
    ensures Timed(a + b) == Timed(a) + Timed(b) && TotalTime(a + b) == TotalTime(a) + TotalTime(b)
  {
    if b == [] {
      assert a + b == a;
    } else {
      TimesConcat(a, b[..|b| - 1]);
      assert (a + b)[..|a + b| - 1] == a + b[..|b| - 1];
    }
  }

  /** The average is that of the records with statistics; the others, which took no
      time, do not lower it. */
  lemma AverageExact(records: seq<Record>)
    ensures AverageTime(records) * Timed(records) as real == TotalTime(records)
  {
    if Timed(records) == 0 {
      NothingTimed(records);
    } else {
      QuotientTimes(TotalTime(records), Timed(records) as real);
    }
  }

  lemma QuotientTimes(t: real, n: real)
    requires n != 0.0
    ensures t / n * n == t
  {
  }

  lemma TimesOfOne(r: Record)
    ensures Timed([r]) == (if r.stats == Stats(0, 0, 0, 0) then 0 else 1) && TotalTime([r]) == r.stats.exec as real
  {
    assert [r][..0] == [];
  }

  lemma {:induction false} NothingTimed(records: seq<Record>)
    requires Timed(records) == 0
    ensures TotalTime(records) == 0.0
  {
    if records != [] {
      NothingTimed(records[..|records| - 1]);
    }
  }

  method ComputeAverageTime(records: seq<Record>) returns (average: real)
    ensures average == AverageTime(records)
  {
    var total, divider := 0.0, 0;
    for i := 0 to |records|
      invariant total == TotalTime(records[..i]) && divider == Timed(records[..i])
    {
      assert records[..i + 1][..i] == records[..i];
      if records[i].stats != NO_STATS {
        total := total + records[i].stats.exec as real;
        divider := divider + 1;
      }
    }
    assert records[..|records|] == records;
    average := if divider == 0 then 0.0 else total / divider as real;
  }

  function TimeScaling(average: real): (real, Stats) -> real {
    (w, stats) => w * TimeFactor(stats, average)
  }

  /** Each weight scaled by f according to the record's statistics. */
  function Scaled(records: seq<Record>, weights: seq<real>, f: (real, Stats) -> real): (r: seq<real>)
    requires |weights| == |records|
    ensures |r| == |weights|
    ensures forall i | 0 <= i < |weights| :: r[i] == f(weights[i], records[i].stats)
  {
    if weights == [] then []
    else
      var n := |weights| - 1;
      Scaled(records[..n], weights[..n], f) + [f(weights[n], records[n].stats)]
  }

  method ScaleAll(records: seq<Record>, weights: seq<real>, f: (real, Stats) -> real) returns (scaled: seq<real>)
    requires |weights| == |records|
    ensures scaled == Scaled(records, weights, f)
  {
    scaled := weights;
    for i := 0 to |records|
      invariant |scaled| == |weights|
      invariant forall k | i <= k < |weights| :: scaled[k] == weights[k]
      invariant forall k | 0 <= k < i :: scaled[k] == f(weights[k], records[k].stats)
    {
      scaled := scaled[i := f(scaled[i], records[i].stats)];
    }
  }

  method ScaleByExecTime(records: seq<Record>, weights: seq<real>) returns (scaled: seq<real>)
    requires |weights| == |records|
    ensures scaled == Scaled(records, weights, TimeScaling(AverageTime(records)))
  {
    var average := ComputeAverageTime(records);
    scaled := ScaleAll(records, weights, TimeScaling(average));
  }

  // ------------------------------------------------------------ normalization

  predicate Positive(w: seq<real>) { exists i | 0 <= i < |w| :: w[i] > 0.0 }

  predicate NonNegative(w: seq<real>) { forall i | 0 <= i < |w| :: w[i] >= 0.0 }

  method Highest(w: seq<real>) returns (h: real)
    requires NonNegative(w)
    ensures forall i | 0 <= i < |w| :: w[i] <= h
    ensures if w == [] then h == 0.0 else exists i | 0 <= i < |w| :: w[i] == h
  {
    h := 0.0;
    for i := 0 to |w|
      invariant forall k | 0 <= k < i :: w[k] <= h
      invariant if i == 0 then h == 0.0 else exists k | 0 <= k < i :: w[k] == h
    {
      if i == 0 || w[i] > h {
        h := w[i];
      }
    }
  }

  /** The truncated integer weight: the share of the highest one, or of the newest
      record when all are zero, in units of 2^-16. */
  function Normalize(w: seq<real>, h: real, i: nat): nat
    requires i < |w| && NonNegative(w) && h >= 0.0
  {
    var share := if h > 0.0 then w[i] / h else (i + 1) as real / |w| as real;
    ShareNonNegative(w, h, i);
    (share * WEIGHT_SCALE as real).Floor
  }

  lemma QuotientBounds(a: real, b: real)
    requires a >= 0.0 && b > 0.0
    ensures a / b >= 0.0 && (a / b) * b == a && (a <= b ==> a / b <= 1.0) && (a == b ==> a / b == 1.0)
  {
  }

  lemma ShareNonNegative(w: seq<real>, h: real, i: nat)
    requires i < |w| && NonNegative(w) && h >= 0.0
    ensures h > 0.0 ==> w[i] / h >= 0.0
    ensures (i + 1) as real / |w| as real >= 0.0
  {
    if h > 0.0 {
      QuotientBounds(w[i], h);
    }
    QuotientBounds((i + 1) as real, |w| as real);
  }

  /** The integer weights are at most 2^16, one of them is 2^16, and they follow the
      order of the real ones; zero stays zero unless all are. */
  ghost predicate Normalized(w: seq<real>, r: seq<nat>) {
    && |r| == |w|
    && (forall i | 0 <= i < |r| :: r[i] <= WEIGHT_SCALE)
    && (w != [] ==> exists i | 0 <= i < |r| :: r[i] == WEIGHT_SCALE)
    && (Positive(w) ==> forall i | 0 <= i < |r| && w[i] == 0.0 :: r[i] == 0)
    && (Positive(w) ==> forall i, j | 0 <= i < |r| && 0 <= j < |r| && w[i] <= w[j] :: r[i] <= r[j])
    && (!Positive(w) ==> forall i, j | 0 <= i < j < |r| :: r[i] <= r[j])
    && (Positive(w) ==> forall h, i | IsHighest(w, h) && 0 <= i < |r| :: Proportional(w[i], h, r[i]))
    && (!Positive(w) ==> forall i | 0 <= i < |r| :: Proportional((i + 1) as real, |w| as real, r[i]))
  }

  predicate IsHighest(w: seq<real>, h: real) {
    (forall i | 0 <= i < |w| :: w[i] <= h) && exists i | 0 <= i < |w| :: w[i] == h
  }

  /** k is the share of x in h, in units of 2^-16 and rounded down. */
  predicate Proportional(x: real, h: real, k: nat) {
    var whole := k as real * h;
    0.0 <= x * 65536.0 - whole < h
  }

  lemma FloorIsProportional(x: real, h: real)
    requires x >= 0.0 && h > 0.0
    ensures (x / h * WEIGHT_SCALE as real).Floor >= 0
    ensures Proportional(x, h, (x / h * WEIGHT_SCALE as real).Floor)
  {
    var q := x / h;
    QuotientBounds(x, h);
    Remainder(x, h, q, (q * WEIGHT_SCALE as real).Floor as real);
  }

  lemma Remainder(x: real, h: real, q: real, k: real)
    requires h > 0.0 && q * h == x && k <= q * 65536.0 < k + 1.0
    ensures 0.0 <= x * 65536.0 - k * h < h
  {
    var d := q * 65536.0 - k;
    calc {
      d * h;
      (q * 65536.0) * h - k * h;
      (q * h) * 65536.0 - k * h;
    }
    assert 0.0 <= d < 1.0;
    FractionBelow(d, h);
    assert 0.0 <= d * h < h;
    assert d * h == x * 65536.0 - k * h;
  }

  lemma FractionBelow(d: real, h: real)
    requires h > 0.0 && 0.0 <= d < 1.0
    ensures 0.0 <= d * h < h
  {
    var e := 1.0 - d;
    assert e * h == h - d * h;
    assert e * h > 0.0;
  }

  /** A record whose weight is at least 2^-16 of the highest stays positive. */
  lemma StaysPositive(w: seq<real>, r: seq<nat>, h: real, i: nat)
    requires Normalized(w, r) && Positive(w) && IsHighest(w, h) && i < |w|
    ensures r[i] > 0 <==> w[i] * 65536.0 >= h
  {
    assert Proportional(w[i], h, r[i]);
    var j :| 0 <= j < |w| && w[j] > 0.0;
    assert h > 0.0;
    PositiveShare(w[i], h, r[i]);
  }

  lemma PositiveShare(x: real, h: real, k: nat)
    requires h > 0.0 && Proportional(x, h, k)
    ensures k > 0 <==> x * 65536.0 >= h
  {
    WholeMultiple(k, h);
  }

  lemma WholeMultiple(k: nat, h: real)
    requires h > 0.0
    ensures k == 0 ==> k as real * h == 0.0
    ensures k > 0 ==> k as real * h >= h
  {
    if k > 0 {
      var e := k as real - 1.0;
      assert e * h >= 0.0;
      assert e * h == k as real * h - h;
    }
  }

  lemma QuotientMonotone(a: real, b: real, h: real)
    requires h > 0.0 && a <= b
    ensures a / h <= b / h
  {
  }

  lemma ScaleMonotone(a: real, b: real)
    requires a <= b
    ensures (a * WEIGHT_SCALE as real).Floor <= (b * WEIGHT_SCALE as real).Floor
  {
  }

  lemma NormalizeMonotone(w: seq<real>, h: real, i: nat, j: nat)
    requires i < |w| && j < |w| && NonNegative(w) && h >= 0.0
    ensures h > 0.0 && w[i] <= w[j] ==> Normalize(w, h, i) <= Normalize(w, h, j)
    ensures h == 0.0 && i <= j ==> Normalize(w, h, i) <= Normalize(w, h, j)
  {
    if h > 0.0 && w[i] <= w[j] {
      QuotientMonotone(w[i], w[j], h);
      ScaleMonotone(w[i] / h, w[j] / h);
    } else if h == 0.0 && i <= j {
      QuotientMonotone((i + 1) as real, (j + 1) as real, |w| as real);
      ScaleMonotone((i + 1) as real / |w| as real, (j + 1) as real / |w| as real);
    }
  }

  lemma NormalizeBound(w: seq<real>, h: real, i: nat)
    requires i < |w| && NonNegative(w) && h >= 0.0 && w[i] <= h
    ensures Normalize(w, h, i) <= WEIGHT_SCALE
    ensures (if h > 0.0 then w[i] == h else i == |w| - 1) ==> Normalize(w, h, i) == WEIGHT_SCALE
    ensures h > 0.0 && w[i] == 0.0 ==> Normalize(w, h, i) == 0
  {
    if h > 0.0 {
      QuotientBounds(w[i], h);
      ScaleMonotone(w[i] / h, 1.0);
    } else {
      QuotientBounds((i + 1) as real, |w| as real);
      ScaleMonotone((i + 1) as real / |w| as real, 1.0);
    }
  }

  lemma NormalizeShare(w: seq<real>, h: real, i: nat)
    requires i < |w| && NonNegative(w) && h >= 0.0
    ensures if h > 0.0 then Proportional(w[i], h, Normalize(w, h, i))
            else Proportional((i + 1) as real, |w| as real, Normalize(w, h, i))
  {
    if h > 0.0 {
      FloorIsProportional(w[i], h);
    } else {
      FloorIsProportional((i + 1) as real, |w| as real);
    }
  }

  lemma NormalizedAll(w: seq<real>, h: real, r: seq<nat>)
    requires NonNegative(w) && h >= 0.0 && |r| == |w|
    requires forall i | 0 <= i < |w| :: w[i] <= h
    requires w != [] ==> exists i | 0 <= i < |w| :: w[i] == h
    requires forall i | 0 <= i < |w| :: r[i] == Normalize(w, h, i)
    ensures Normalized(w, r)
  {
    forall i | 0 <= i < |w|
      ensures r[i] <= WEIGHT_SCALE && (h > 0.0 && w[i] == 0.0 ==> r[i] == 0)
      ensures if h > 0.0 then Proportional(w[i], h, r[i]) else Proportional((i + 1) as real, |w| as real, r[i])
    {
      NormalizeBound(w, h, i);
      NormalizeShare(w, h, i);
    }
    forall i, j | 0 <= i < |r| && 0 <= j < |r|
      ensures (h > 0.0 && w[i] <= w[j] ==> r[i] <= r[j]) && (h == 0.0 && i <= j ==> r[i] <= r[j])
    {
      NormalizeMonotone(w, h, i, j);
    }
    if w != [] {
      var top: nat :| top < |w| && w[top] == h;
      var k := if h > 0.0 then top else |w| - 1;
      NormalizeBound(w, h, k);
      assert r[k] == WEIGHT_SCALE;
      assert h > 0.0 <==> Positive(w);
    }
  }

  // ------------------------------------------------------------------ corpus

  /** The weights before normalization. */
  function FinalWeights(c: Weighing, scale: bool, records: seq<Record>): (w: seq<real>)
    requires c.threshold >= 1 && AllMerged(records, c.merged)
    ensures |w| == |records|
  {
    var raw := RawWeights(c, records);
    if scale then Scaled(records, raw, TimeScaling(AverageTime(records))) else raw
  }

  /** They are positive exactly for the records that still have features. */
  lemma FinalWeightPositive(c: Weighing, scale: bool, records: seq<Record>, i: nat)
    requires 1 <= c.threshold < 0x100 && AllMerged(records, c.merged) && i < |records|
    ensures var w := FinalWeights(c, scale, records)[i];
            w >= 0.0 && (w > 0.0 <==> records[i].features != [])
  {
    var raw := RawWeights(c, records);
    RawWeightsAt(c, records, i);
    RawWeightPositive(c, i, records[i]);
    RealProduct(raw[i], TimeFactor(records[i].stats, AverageTime(records)));
  }

  /** Each is the raw weight of its own record, times its own factor when scaled. */
  lemma FinalWeightAt(c: Weighing, records: seq<Record>, i: nat)
    requires c.threshold >= 1 && AllMerged(records, c.merged) && i < |records|
    ensures FinalWeights(c, false, records)[i] == RawWeight(c, i, records[i]) as real
    ensures FinalWeights(c, true, records)[i] ==
            RawWeight(c, i, records[i]) as real * TimeFactor(records[i].stats, AverageTime(records))
  {
    RawWeightsAt(c, records, i);
  }

  lemma RealProduct(a: real, b: real)
    requires a >= 0.0 && b > 0.0
    ensures a * b >= 0.0 && (a * b > 0.0 <==> a > 0.0)
  {
  }

  class Corpus {
    var records: seq<Record>
    const distribution: WeightedDistribution
    var numPruned: nat
    const how: WeightMethod
    ghost var added: nat

    predicate Aligned()
      reads this, distribution
    {
      |records| == |distribution.weights|
    }

    /** One weight per record, every Add accounted for, usable cumulative sums. */
    ghost predicate Valid()
      reads this, distribution
    {
      && Aligned() && distribution.Accurate() && distribution.cumulativeValid
      && NumTotal() == added
      && NonEmpty(records)
    }

    function NumTotal(): nat
      reads this
    {
      numPruned + |records|
    }

    constructor (how: WeightMethod)
      ensures Valid() && records == [] && added == 0 && fresh(distribution) && this.how == how
    {
      records, numPruned, added := [], 0, 0;
      distribution := new WeightedDistribution();
      this.how := how;
    }

    method Add(data: seq<U8>, fv: seq<Feature>, metadata: seq<U8>, stats: Stats)
      requires Valid() && data != []
      modifies this, distribution
      ensures Valid() && added == old(added) + 1
      ensures records == old(records) + [Record(data, fv, metadata, stats)]
      ensures distribution.weights == old(distribution.weights) + [0]
    {
      assert |records| == |distribution.weights|;
      records := records + [Record(data, fv, metadata, stats)];
      distribution.AddWeight(0);
      added := added + 1;
    }

    method WeightedRandom(x: nat, any: nat) returns (k: nat)
      requires Valid() && records != []
      requires Sum(distribution.weights) > 0 ==> x < Sum(distribution.weights)
      ensures k < |records|
      ensures Sum(distribution.weights) > 0 ==> Draws(distribution.weights, x, k)
    {
      k := distribution.RandomIndex(x, any);
    }

    /** The last loops of UpdateWeights. */
    method SetWeights(w: seq<real>)
      requires distribution.Sized() && |w| == |distribution.weights| && NonNegative(w)
      modifies distribution
      ensures distribution.Accurate() && distribution.cumulativeValid
      ensures Normalized(w, distribution.weights)
    {
      var h := Highest(w);
      for i := 0 to |w|
        invariant distribution.Sized() && |distribution.weights| == |w|
        invariant forall k | 0 <= k < i :: distribution.weights[k] == Normalize(w, h, k)
      {
        distribution.ChangeWeight(i, Normalize(w, h, i));
      }
      NormalizedAll(w, h, distribution.weights);
      distribution.RecomputeInternalState();
    }

    method UpdateWeights(fs: FeatureSet, frontier: FrontierView, scaleByExecTime: bool)
      requires Valid() && fs.Valid() && AllMerged(records, fs.merged) && {this, distribution} !! fs.Repr()
      modifies this`records, distribution
      ensures Valid() && AllMerged(records, fs.merged)
      ensures records == PrunedRecords(WeighingOf(fs, how, frontier), old(records))
      ensures Normalized(FinalWeights(WeighingOf(fs, how, frontier), scaleByExecTime, records), distribution.weights)
      ensures records != [] ==> SomePositive(distribution.weights)
    {
      ghost var c := WeighingOf(fs, how, frontier);
      var pruned, weights := ComputeWeights(fs, how, frontier, scaleByExecTime, records);
      PrunedNonEmpty(c, records);
      records := pruned;
      SetWeights(weights);
      assert WeighingOf(fs, how, frontier) == c;
      if weights != [] {
        NormalizedPositive(weights, distribution.weights);
      }
    }

    /** The choice of what to remove, made and carried out on the weights. */
    method PruneWeights(maxCorpusSize: nat, keys: seq<real>) returns (subset: seq<nat>)
      requires Valid() && maxCorpusSize > 0 && |keys| == |records|
      modifies distribution
      ensures Increasing(subset) && (forall k <- subset :: k < |records|)
      ensures distribution.Sized() && distribution.weights == Without(old(distribution.weights), Members(subset))
      ensures AllPositive(distribution.weights)
      ensures |distribution.weights| == |records| - |subset| == Min(maxCorpusSize, Weighted(old(distribution.weights)))
    {
      var numZero := CountZeros(distribution.weights);
      ZerosAndNonZeros(distribution.weights);
      var nonZero := |records| - numZero;
      var target := Min(maxCorpusSize, if nonZero < 1 then 1 else nonZero);
      subset := distribution.RemoveRandomWeightedSubset(target, keys);
      RemainingPositive(old(distribution.weights), Members(subset));
    }

    /** Removes the records of weight zero, and of the others what exceeds the limit.
        Records and weights stay aligned exactly when there are fewer than two
        records or some weight is positive; otherwise one record is left without
        a weight. */
    method Prune(maxCorpusSize: nat, keys: seq<real>, any: nat) returns (removed: nat, ghost gone: set<nat>)
      requires Valid() && maxCorpusSize > 0 && |keys| == |records|
      modifies this, distribution
      ensures NumTotal() == added == old(added) && NonEmpty(records) && removed == |old(records)| - |records|
      ensures distribution.Accurate() && distribution.cumulativeValid
      ensures old(records) != [] ==> records != []
      ensures records == Without(old(records), gone)
      ensures Aligned() <==> |old(records)| < 2 || SomePositive(old(distribution.weights))
      ensures Aligned() ==> distribution.weights == Without(old(distribution.weights), gone)
      ensures |old(records)| < 2 ==> gone == {}
      ensures Aligned() && |old(records)| >= 2 ==> AllPositive(distribution.weights)
      ensures Aligned() && |old(records)| >= 2 ==> |records| == Min(maxCorpusSize, Weighted(old(distribution.weights)))
      ensures !Aligned() ==> |records| == 1 && distribution.weights == []
    {
      gone := {};
      if |records| < 2 {
        WithoutNothing(records);
        WithoutNothing(distribution.weights);
        return 0, gone;
      }
      WeightedPositive(distribution.weights);
      var subset := PruneWeights(maxCorpusSize, keys);
      if |subset| == |records| {
        subset := DropOne(subset, |records|, any);
      }
      RemovedSize(records, subset);
      WithoutMembers(records, Members(subset));
      records := RemoveSubset(subset, records);
      distribution.RecomputeInternalState();
      assert records != [];
      numPruned := numPruned + |subset|;
      return |subset|, Members(subset);
    }

    /** What pruning keeps when some weight is positive. */
    method PruneWeighed(maxCorpusSize: nat, ghost m: multiset<Feature>)
      returns (ghost gone: set<nat>)
      requires Valid() && maxCorpusSize > 0
      requires SomePositive(distribution.weights) && AllMerged(records, m)
      modifies this, distribution
      ensures Valid() && added == old(added) && AllMerged(records, m)
      ensures 0 < |records| <= maxCorpusSize && SomePositive(distribution.weights)
      ensures records == Without(old(records), gone) && distribution.weights == Without(old(distribution.weights), gone)
      ensures |records| == Min(maxCorpusSize, Weighted(old(distribution.weights)))
    {
      var keys := RandomKeys(|records|);
      var any: nat := *;
      var _, removed := Prune(maxCorpusSize, keys, any);
      gone := removed;
      AllMergedWithout(old(records), gone, m);
      if |old(records)| < 2 {
        OneWeighted(old(distribution.weights));
      }
      if gone == {} {
        WithoutNothing(old(distribution.weights));
      } else {
        assert distribution.weights[0] > 0;
      }
    }
  }

  lemma AllMergedWithout(records: seq<Record>, gone: set<nat>, m: multiset<Feature>)
    requires AllMerged(records, m)
    ensures AllMerged(Without(records, gone), m)
  {
    WithoutMembers(records, gone);
    var left := Without(records, gone);
    forall i | 0 <= i < |left| ensures RecordMerged(left[i], m) {
      assert left[i] in left;
    }
  }

  method RandomKeys(n: nat) returns (keys: seq<real>)
    ensures |keys| == n
  {
    keys := [];
    for i := 0 to n
      invariant |keys| == i
    {
      var key: real := *;
      keys := keys + [key];
    }
  }

  /** Keeps one of the indices after all. */
  method DropOne(subset: seq<nat>, ghost n: nat, any: nat) returns (r: seq<nat>)
    requires subset != [] && Increasing(subset) && forall k <- subset :: k < n
    ensures |r| == |subset| - 1 && Increasing(r) && forall k <- r :: k < n
  {
    var k := any % |subset|;
    r := subset[..k] + subset[k + 1..];
    assert forall x <- r :: x in subset;
  }

  /** The number of positive weights. */
  function Weighted(w: seq<nat>): nat { |NonZeros(w, |w|)| }

  lemma OneWeighted(w: seq<nat>)
    requires |w| == 1 && SomePositive(w)
    ensures Weighted(w) == 1
  {
    assert NonZeros(w, |w|) == {0};
  }

  lemma WeightedPositive(w: seq<nat>)
    ensures Weighted(w) > 0 <==> SomePositive(w)
  {
    if SomePositive(w) {
      var i :| 0 <= i < |w| && w[i] > 0;
      assert i in NonZeros(w, |w|);
    } else {
      assert NonZeros(w, |w|) == {};
    }
  }

  /** Two fresh records and a prune before any weight update: the record that is
      left has no weight. */
  method PruneWithoutWeights(first: seq<U8>, second: seq<U8>, max: nat) returns (records: nat, weights: nat)
    requires first != [] && second != [] && max > 0
    ensures records == 1 && weights == 0
  {
    var corpus := new Corpus(FeatureRarity);
    corpus.Add(first, [], [], NO_STATS);
    corpus.Add(second, [], [], NO_STATS);
    assert corpus.distribution.weights == [0, 0];
    var _, _ := corpus.Prune(max, [0.0, 0.0], 0);
    return |corpus.records|, |corpus.distribution.weights|;
  }

  predicate NonEmpty(records: seq<Record>) { forall r <- records :: r.data != [] }

  method ComputeWeights(fs: FeatureSet, how: WeightMethod, frontier: FrontierView, scale: bool, records: seq<Record>)
    returns (pruned: seq<Record>, weights: seq<real>)
    requires fs.Valid() && AllMerged(records, fs.merged)
    ensures AllMerged(pruned, fs.merged)
    ensures pruned == PrunedRecords(WeighingOf(fs, how, frontier), records)
    ensures weights == FinalWeights(WeighingOf(fs, how, frontier), scale, pruned) && NonNegative(weights)
  {
    pruned, weights := WeighRecords(fs, how, frontier, records);
    if scale {
      weights := ScaleByExecTime(pruned, weights);
    }
    FinalWeightsNonNegative(WeighingOf(fs, how, frontier), scale, pruned);
  }

  lemma FinalWeightsNonNegative(c: Weighing, scale: bool, records: seq<Record>)
    requires 1 <= c.threshold < 0x100 && AllMerged(records, c.merged)
    ensures NonNegative(FinalWeights(c, scale, records))
  {
    forall i: nat | i < |records| ensures FinalWeights(c, scale, records)[i] >= 0.0 {
      FinalWeightPositive(c, scale, records, i);
    }
  }

  lemma NormalizedPositive(w: seq<real>, r: seq<nat>)
    requires Normalized(w, r) && w != []
    ensures SomePositive(r)
  {
    var i :| 0 <= i < |r| && r[i] == WEIGHT_SCALE;
    assert r[i] > 0;
  }

  lemma PrunedNonEmpty(c: Weighing, records: seq<Record>)
    requires NonEmpty(records)
    ensures NonEmpty(PrunedRecords(c, records))
  {
    forall r | r in PrunedRecords(c, records) ensures r.data != [] {
      var i :| 0 <= i < |records| && r == PrunedRecord(c, records[i]);
      assert records[i] in records;
    }
  }

  predicate AllPositive(w: seq<nat>) { forall i | 0 <= i < |w| :: w[i] > 0 }

  method CountZeros(w: seq<nat>) returns (n: nat)
    ensures n == |Zeros(w)|
  {
    n := 0;
    assert Below(Zeros(w), 0) == {};
    for i := 0 to |w|
      invariant n == |Below(Zeros(w), i)|
    {
      BelowStep(Zeros(w), i);
      if w[i] == 0 {
        n := n + 1;
      }
    }
    assert Below(Zeros(w), |w|) == Zeros(w);
  }

  lemma {:induction false} WithoutMembers<T>(s: seq<T>, gone: set<nat>)
    ensures forall x <- Without(s, gone) :: x in s
  {
    if s != [] {
      WithoutMembers(s[..|s| - 1], gone);
    }
  }

  lemma {:induction false} WithoutNothing<T>(s: seq<T>)
    ensures Without(s, {}) == s
  {
    if s != [] {
      WithoutNothing(s[..|s| - 1]);
      assert s == s[..|s| - 1] + [s[|s| - 1]];
    }
  }

  lemma {:induction false} RemainingPositive(w: seq<nat>, gone: set<nat>)
    requires forall i | 0 <= i < |w| && w[i] == 0 :: i in gone
    ensures AllPositive(Without(w, gone))
  {
    if w != [] {
      RemainingPositive(w[..|w| - 1], gone);
    }
  }
}
