/** What executed batches and loaded shards mean for the seen features and the corpus,
    as functions of the history: which inputs count as new, what is merged, and which
    records are made. */
module Runs {
  import opened Bytes
  import opened Features
  import opened FeatureSets
  import opened RunnerResults
  import opened Wrappers
  import opened Weights
  import opened Corpora

  /** An executed input with its result and the verdicts of the two filters. */
  datatype Execution = Execution(
    input: seq<U8>, features: seq<Feature>, metadata: seq<U8>, stats: Stats,
    passesInputFilter: bool, passesFunctionFilter: bool)

  /** A shard element: the stored features, and what executing the input again gives. */
  datatype Element = Element(features: seq<Feature>, execution: Execution)

  datatype Environment = Environment(
    usePcPairs: bool, numPcs: nat, scaleByExecTime: bool, batchSize: nat,
    mutateBatchSize: nat, useCorpusWeights: bool, pruneFrequency: nat, maxCorpusSize: nat)

  /** One iteration of the fuzzing loop. */
  datatype Round = Round(batch: seq<Execution>, shard: Option<seq<Element>>)

  predicate Usable(batch: seq<Execution>) { forall e <- batch :: e.input != [] }

  predicate UsableShard(shard: seq<Element>) { forall e <- shard :: e.execution.input != [] }

  predicate UsableRound(r: Round) { Usable(r.batch) && (r.shard.Some? ==> UsableShard(r.shard.value)) }

  method RandomDraws(n: nat) returns (draws: seq<nat>)
    ensures |draws| == n
  {
    draws := [];
    for i := 0 to n
      invariant |draws| == i
    {
      var draw: nat := *;
      draws := draws + [draw];
    }
  }

  // ---------------------------------------------------------------- PC pairs

  function PcsOf(fv: seq<Feature>): seq<nat> {
    if fv == [] then []
    else
      var f := fv[|fv| - 1];
      PcsOf(fv[..|fv| - 1]) + if InDomain(PCS_DOMAIN, f) then [f - PCS_DOMAIN * DOMAIN_SIZE] else []
  }

  function PairFeature(pc1: nat, pc2: nat, numPcs: nat): (f: Feature)
    ensures DomainOf(f) == PC_PAIR_DOMAIN && f < SIZE
  {
    ConvertTo(PC_PAIR_DOMAIN, pc1 * numPcs + pc2)
  }

  /** The unmerged pair features of PC i with the later PCs below index j. */
  function PairsWith(m: multiset<Feature>, pcs: seq<nat>, numPcs: nat, i: nat, j: nat): seq<Feature>
    requires i < j <= |pcs|
  {
    if j == i + 1 then []
    else
      var f := PairFeature(pcs[i], pcs[j - 1], numPcs);
      PairsWith(m, pcs, numPcs, i, j - 1) + if f in m then [] else [f]
  }

  function Pairs(m: multiset<Feature>, pcs: seq<nat>, numPcs: nat, i: nat): seq<Feature>
    requires i <= |pcs|
  {
    if i == 0 then [] else Pairs(m, pcs, numPcs, i - 1) + PairsWith(m, pcs, numPcs, i - 1, |pcs|)
  }

  /** The unmerged pair features of all PCs of an input. */
  function AllPairs(m: multiset<Feature>, fv: seq<Feature>, numPcs: nat): seq<Feature> {
    Pairs(m, PcsOf(fv), numPcs, |PcsOf(fv)|)
  }

  predicate NewPairs(m: multiset<Feature>, fv: seq<Feature>) {
    forall f <- fv :: f !in m && f < SIZE && DomainOf(f) == PC_PAIR_DOMAIN
  }

  lemma PairsAreNew(m: multiset<Feature>, pcs: seq<nat>, numPcs: nat, i: nat)
    requires i <= |pcs|
    ensures NewPairs(m, Pairs(m, pcs, numPcs, i))
  {
    forall f | f in Pairs(m, pcs, numPcs, i)
      ensures f !in m && f < SIZE && DomainOf(f) == PC_PAIR_DOMAIN
    {
      PairsExact(m, pcs, numPcs, i, f);
    }
  }

  method CollectPcs(fv: seq<Feature>) returns (pcs: seq<nat>)
    ensures pcs == PcsOf(fv)
  {
    pcs := [];
    for i := 0 to |fv|
      invariant pcs == PcsOf(fv[..i])
    {
      assert fv[..i + 1][..i] == fv[..i];
      if InDomain(PCS_DOMAIN, fv[i]) {
        pcs := pcs + [fv[i] - PCS_DOMAIN * DOMAIN_SIZE];
      }
    }
    assert fv[..|fv|] == fv;
  }

  /** A pair feature has frequency zero exactly when it was never merged. */
  method PairIsNew(fs: FeatureSet, f: Feature) returns (isNew: bool)
    requires fs.Valid() && f < SIZE && DomainOf(f) == PC_PAIR_DOMAIN
    ensures isNew <==> f !in fs.merged
  {
    var frequency := fs.GetFrequency(f);
    isNew := frequency == 0;
  }

  method AddPcPairFeatures(fs: FeatureSet, numPcs: nat, fv: seq<Feature>) returns (r: seq<Feature>, n: nat)
    requires fs.Valid()
    ensures r == fv + AllPairs(fs.merged, fv, numPcs) && n == |r| - |fv|
  {
    var pcs := CollectPcs(fv);
    var added := [];
    for i := 0 to |pcs|
      invariant added == Pairs(fs.merged, pcs, numPcs, i)
    {
      ghost var before := added;
      for j := i + 1 to |pcs|
        invariant added == before + PairsWith(fs.merged, pcs, numPcs, i, j)
      {
        var f := PairFeature(pcs[i], pcs[j], numPcs);
        var isNew := PairIsNew(fs, f);
        if isNew {
          added := added + [f];
        }
      }
    }
    return fv + added, |added|;
  }

  // ---------------------------------------------------------------- coverage

  /** Nothing of `fv` is new, discarded domains aside. */
  predicate Covered(discarded: set<nat>, m: multiset<Feature>, fv: seq<Feature>) {
    forall f <- fv :: Discarded(discarded, f) || Seen(m, f)
  }

  lemma CoveredMonotone(discarded: set<nat>, m: multiset<Feature>, m': multiset<Feature>, fv: seq<Feature>)
    requires m <= m' && Covered(discarded, m, fv)
    ensures Covered(discarded, m', fv)
  {
    forall f | f in fv ensures Discarded(discarded, f) || Seen(m', f) {
      if Seen(m, f) {
        SeenMonotone(m, m', f);
      }
    }
  }

  /** The same for the accepted inputs of a batch, for the elements of a shard, and for a
      round of the loop. */
  predicate BatchCovered(discarded: set<nat>, m: multiset<Feature>, batch: seq<Execution>) {
    forall e <- batch :: e.passesInputFilter ==> Covered(discarded, m, e.features)
  }

  predicate ShardCovered(discarded: set<nat>, m: multiset<Feature>, shard: seq<Element>) {
    forall e <- shard :: Covered(discarded, m, e.features)
  }

  predicate RoundCovered(discarded: set<nat>, m: multiset<Feature>, r: Round) {
    BatchCovered(discarded, m, r.batch) && (r.shard.Some? ==> ShardCovered(discarded, m, r.shard.value))
  }

  lemma BatchCoveredMonotone(discarded: set<nat>, m: multiset<Feature>, m': multiset<Feature>, batch: seq<Execution>)
    requires m <= m' && BatchCovered(discarded, m, batch)
    ensures BatchCovered(discarded, m', batch)
  {
    forall e | e in batch && e.passesInputFilter ensures Covered(discarded, m', e.features) {
      CoveredMonotone(discarded, m, m', e.features);
    }
  }

  lemma BatchCoveredSnoc(discarded: set<nat>, m: multiset<Feature>, m': multiset<Feature>, batch: seq<Execution>, i: nat)
    requires m <= m' && i < |batch| && BatchCovered(discarded, m, batch[..i])
    requires batch[i].passesInputFilter ==> Covered(discarded, m', batch[i].features)
    ensures BatchCovered(discarded, m', batch[..i + 1])
  {
    BatchCoveredMonotone(discarded, m, m', batch[..i]);
    assert batch[..i + 1] == batch[..i] + [batch[i]];
  }

  lemma BatchCoveredConcat(discarded: set<nat>, m: multiset<Feature>, a: seq<Execution>, b: seq<Execution>)
    requires BatchCovered(discarded, m, a) && BatchCovered(discarded, m, b)
    ensures BatchCovered(discarded, m, a + b)
  {
  }

  lemma BatchCoveredJoin(discarded: set<nat>, m: multiset<Feature>, m': multiset<Feature>, inputs: seq<Execution>, rest: nat, end: nat)
    requires rest <= end <= |inputs| && m <= m'
    requires BatchCovered(discarded, m, inputs[end..]) && BatchCovered(discarded, m', inputs[rest..end])
    ensures BatchCovered(discarded, m', inputs[rest..])
  {
    BatchCoveredMonotone(discarded, m, m', inputs[end..]);
    BatchCoveredConcat(discarded, m', inputs[rest..end], inputs[end..]);
    assert inputs[rest..end] + inputs[end..] == inputs[rest..];
  }

  lemma ShardCoveredMonotone(discarded: set<nat>, m: multiset<Feature>, m': multiset<Feature>, shard: seq<Element>)
    requires m <= m' && ShardCovered(discarded, m, shard)
    ensures ShardCovered(discarded, m', shard)
  {
    forall e | e in shard ensures Covered(discarded, m', e.features) {
      CoveredMonotone(discarded, m, m', e.features);
    }
  }

  predicate ShardsCovered(discarded: set<nat>, m: multiset<Feature>, shards: seq<seq<Element>>) {
    forall s <- shards :: ShardCovered(discarded, m, s)
  }

  lemma ShardsCoveredMonotone(discarded: set<nat>, m: multiset<Feature>, m': multiset<Feature>, shards: seq<seq<Element>>)
    requires m <= m' && ShardsCovered(discarded, m, shards)
    ensures ShardsCovered(discarded, m', shards)
  {
    forall s | s in shards ensures ShardCovered(discarded, m', s) {
      ShardCoveredMonotone(discarded, m, m', s);
    }
  }

  lemma ShardCoveredSnoc(discarded: set<nat>, m: multiset<Feature>, m': multiset<Feature>, shard: seq<Element>, i: nat)
    requires m <= m' && i < |shard| && ShardCovered(discarded, m, shard[..i]) && Covered(discarded, m', shard[i].features)
    ensures ShardCovered(discarded, m', shard[..i + 1])
  {
    ShardCoveredMonotone(discarded, m, m', shard[..i]);
    assert shard[..i + 1] == shard[..i] + [shard[i]];
  }

  predicate RoundsCovered(discarded: set<nat>, m: multiset<Feature>, rounds: seq<Round>) {
    forall r <- rounds :: RoundCovered(discarded, m, r)
  }

  lemma RoundsCoveredSnoc(discarded: set<nat>, m: multiset<Feature>, m': multiset<Feature>, rounds: seq<Round>, i: nat)
    requires m <= m' && i < |rounds| && RoundsCovered(discarded, m, rounds[..i]) && RoundCovered(discarded, m', rounds[i])
    ensures RoundsCovered(discarded, m', rounds[..i + 1])
  {
    RoundsCoveredMonotone(discarded, m, m', rounds[..i]);
    assert rounds[..i + 1] == rounds[..i] + [rounds[i]];
  }

  lemma RoundsCoveredMonotone(discarded: set<nat>, m: multiset<Feature>, m': multiset<Feature>, rounds: seq<Round>)
    requires m <= m' && RoundsCovered(discarded, m, rounds)
    ensures RoundsCovered(discarded, m', rounds)
  {
    forall r | r in rounds ensures RoundCovered(discarded, m', r) {
      BatchCoveredMonotone(discarded, m, m', r.batch);
      if r.shard.Some? {
        ShardCoveredMonotone(discarded, m, m', r.shard.value);
      }
    }
  }

  /** Pruning found nothing new. */
  lemma CoveredWithoutFresh(threshold: nat, discarded: set<nat>, m: multiset<Feature>, fv: seq<Feature>)
    requires threshold >= 1 && Fresh(discarded, m, fv) == 0
    ensures Covered(discarded, m, fv)
  {
    FreshFeatures(threshold, discarded, m, fv);
  }

  /** Merging what pruning keeps covers the whole input. */
  lemma CoveredByKept(threshold: nat, discarded: set<nat>, m: multiset<Feature>, m': multiset<Feature>, fv: seq<Feature>)
    requires threshold >= 1 && m <= m' && Merged(Kept(threshold, discarded, m, fv), m')
    ensures Covered(discarded, m', fv)
  {
    KeptMembers(threshold, discarded, m, fv);
    forall f | f in fv && !Discarded(discarded, f) ensures Seen(m', f) {
      if Keep(threshold, discarded, m, f) {
        MergedIsSeen(m', f);
      } else {
        KeepByBest(threshold, discarded, m, f);
        NotKeptIsSeen(threshold, discarded, m, f);
        SeenMonotone(m, m', f);
      }
    }
  }

  lemma NotKeptIsSeen(threshold: nat, discarded: set<nat>, m: multiset<Feature>, f: Feature)
    requires threshold >= 1 && !Discarded(discarded, f) && !Keep(threshold, discarded, m, f)
    ensures Seen(m, f)
  {
    if m[f] > 0 {
      MergedIsSeen(m, f);
    }
  }

  lemma {:induction false} KeptInRange(threshold: nat, discarded: set<nat>, m: multiset<Feature>, fv: seq<Feature>)
    ensures AllInRange(Kept(threshold, discarded, m, fv))
  {
    KeptMembers(threshold, discarded, m, fv);
    var kept := Kept(threshold, discarded, m, fv);
    forall i | 0 <= i < |kept| ensures kept[i] < SIZE {
      assert kept[i] in kept;
    }
  }

  lemma AllMergedMonotone(records: seq<Record>, m: multiset<Feature>, m': multiset<Feature>)
    requires m <= m' && AllMerged(records, m)
    ensures AllMerged(records, m')
  {
    forall i | 0 <= i < |records| ensures RecordMerged(records[i], m') {
      assert RecordMerged(records[i], m);
    }
  }

  lemma InRangeConcat(m: multiset<Feature>, a: seq<Feature>, b: seq<Feature>)
    requires AllInRange(a) && NewPairs(m, b)
    ensures AllInRange(a + b)
  {
    forall i | 0 <= i < |b| ensures b[i] < SIZE {
      assert b[i] in b;
    }
  }

  lemma PositivePrefix(a: seq<nat>, b: seq<nat>)
    requires a <= b
    ensures SomePositive(a) ==> SomePositive(b)
  {
    if SomePositive(a) {
      var i :| 0 <= i < |a| && a[i] > 0;
      assert b[i] > 0;
    }
  }

  lemma AllMergedSeen(records: seq<Record>, m: multiset<Feature>)
    requires AllMerged(records, m)
    ensures forall r <- records :: forall f <- r.features :: Seen(m, f)
  {
    forall r, f | r in records && f in r.features ensures Seen(m, f) {
      assert RecordMerged(r, m);
      MergedIsSeen(m, f);
    }
  }

  lemma AllMergedSnoc(records: seq<Record>, r: Record, m: multiset<Feature>, m': multiset<Feature>)
    requires AllMerged(records, m) && m' == m + multiset(r.features)
    ensures AllMerged(records, m') && AllMerged(records + [r], m')
  {
    AllMergedMonotone(records, m, m');
    MergedHere(r.features, m, m');
    AllMergedAppend(records, r, m');
  }

  lemma MergedHere(fv: seq<Feature>, m: multiset<Feature>, m': multiset<Feature>)
    requires m' == m + multiset(fv)
    ensures Merged(fv, m')
  {
    assert forall f <- fv :: f in multiset(fv);
  }

  lemma KeptAreMerged(kept: seq<Feature>, fv: seq<Feature>, m: multiset<Feature>, m': multiset<Feature>)
    requires kept <= fv && m' == m + multiset(fv)
    ensures Merged(kept, m') && m <= m'
  {
    MergedHere(fv, m, m');
    assert forall f <- kept :: f in fv;
  }

  // -------------------------------------------------------------- PC pair laws

  lemma {:induction false} PcsConcat(a: seq<Feature>, b: seq<Feature>)
    ensures PcsOf(a + b) == PcsOf(a) + PcsOf(b)
  {
    if b == [] {
      assert a + b == a;
    } else {
      var init := b[..|b| - 1];
      PcsConcat(a, init);
      assert (a + b)[..|a + b| - 1] == a + init;
    }
  }

  /** The PCs of an input are its features of the PC domain, counted from its start. */
  lemma {:induction false} PcsExact(fv: seq<Feature>, pc: nat)
    ensures pc in PcsOf(fv) <==> pc < 0x800_0000 && 0x800_0000 + pc in fv
    ensures PcsOf([0x800_0000 + pc]) == if pc < 0x800_0000 then [pc] else []
  {
    PcsOfOne(0x800_0000 + pc);
    if fv != [] {
      var n := |fv| - 1;
      PcsExact(fv[..n], pc);
      assert forall f :: f in fv <==> f in fv[..n] || f == fv[n] by {
        assert fv == fv[..n] + [fv[n]];
      }
    }
  }

  lemma PcsOfOne(f: Feature)
    ensures PcsOf([f]) == if 0x800_0000 <= f < 0x1000_0000 then [f - 0x800_0000] else []
  {
    assert [f][..0] == [];
  }

  /** f is the pair of one of the first n PCs with a later one. */
  predicate IsPair(pcs: seq<nat>, numPcs: nat, n: nat, f: Feature) {
    exists i, j | 0 <= i < n && i < j < |pcs| :: f == PairFeature(pcs[i], pcs[j], numPcs)
  }

  /** f is the pair of PC i with a later one below index n. */
  predicate IsPairWith(pcs: seq<nat>, numPcs: nat, i: nat, n: nat, f: Feature)
    requires i < |pcs| && n <= |pcs|
  {
    exists j | i < j < n :: f == PairFeature(pcs[i], pcs[j], numPcs)
  }

  lemma IsPairStep(pcs: seq<nat>, numPcs: nat, n: nat, f: Feature)
    requires n < |pcs|
    ensures IsPair(pcs, numPcs, n + 1, f) <==> IsPair(pcs, numPcs, n, f) || IsPairWith(pcs, numPcs, n, |pcs|, f)
  {
    if IsPair(pcs, numPcs, n, f) {
      var i, j :| 0 <= i < n && i < j < |pcs| && f == PairFeature(pcs[i], pcs[j], numPcs);
      assert i < n + 1;
    }
  }

  /** The added features are exactly the unmerged pairs of an earlier and a later PC. */
  lemma {:induction false} PairsExact(m: multiset<Feature>, pcs: seq<nat>, numPcs: nat, n: nat, f: Feature)
    requires n <= |pcs|
    ensures f in Pairs(m, pcs, numPcs, n) <==> f !in m && IsPair(pcs, numPcs, n, f)
  {
    if n > 0 {
      var a, b := Pairs(m, pcs, numPcs, n - 1), PairsWith(m, pcs, numPcs, n - 1, |pcs|);
      PairsExact(m, pcs, numPcs, n - 1, f);
      PairsWithExact(m, pcs, numPcs, n - 1, |pcs|, f);
      IsPairStep(pcs, numPcs, n - 1, f);
      InConcat(a, b, f);
      PairsStep(m, pcs, numPcs, n - 1);
      if f in a {
        assert f in Pairs(m, pcs, numPcs, n);
      } else if f in b {
        assert f in Pairs(m, pcs, numPcs, n);
      } else {
        assert f !in Pairs(m, pcs, numPcs, n);
      }
    }
  }

  lemma PairsStep(m: multiset<Feature>, pcs: seq<nat>, numPcs: nat, n: nat)
    requires n < |pcs|
    ensures Pairs(m, pcs, numPcs, n + 1) == Pairs(m, pcs, numPcs, n) + PairsWith(m, pcs, numPcs, n, |pcs|)
  {
  }

  lemma InConcat(a: seq<Feature>, b: seq<Feature>, f: Feature)
    ensures f in a + b <==> f in a || f in b
  {
  }

  lemma {:induction false} PairsWithExact(m: multiset<Feature>, pcs: seq<nat>, numPcs: nat, i: nat, n: nat, f: Feature)
    requires i < n <= |pcs|
    ensures f in PairsWith(m, pcs, numPcs, i, n) <==> f !in m && IsPairWith(pcs, numPcs, i, n, f)
    decreases n
  {
    if n > i + 1 {
      PairsWithExact(m, pcs, numPcs, i, n - 1, f);
    }
  }

  /** Different pairs of PCs of a table with at most 2^27 pairs are different features. */
  lemma PairsDistinct(a: nat, b: nat, c: nat, d: nat, numPcs: nat)
    requires a < numPcs && b < numPcs && c < numPcs && d < numPcs && numPcs * numPcs <= 0x800_0000
    ensures PairFeature(a, b, numPcs) == PairFeature(c, d, numPcs) <==> a == c && b == d
  {
    PairNumber(a, b, numPcs);
    PairNumber(c, d, numPcs);
    if a * numPcs + b == c * numPcs + d {
      SameDigits(a, b, c, d, numPcs);
    }
  }

  lemma SameDigits(a: nat, b: nat, c: nat, d: nat, n: nat)
    requires b < n && d < n && a * n + b == c * n + d
    ensures a == c && b == d
  {
    assert (a - c) * n == d - b;
    MultipleSize(a - c, n);
  }

  lemma PairNumber(a: nat, b: nat, numPcs: nat)
    requires a < numPcs && b < numPcs && numPcs * numPcs <= 0x800_0000
    ensures PairFeature(a, b, numPcs) == 0x5800_0000 + a * numPcs + b
  {
    assert (a + 1) * numPcs <= numPcs * numPcs by {
      assert (numPcs - a - 1) * numPcs >= 0;
    }
    assert 0 <= a * numPcs + b < 0x800_0000;
  }

  // ------------------------------------------------------------------ meaning

  datatype Rules = Rules(threshold: nat, discarded: set<nat>, usePcPairs: bool, numPcs: nat)

  /** The features merged so far and the records of the corpus. */
  datatype View = View(merged: multiset<Feature>, records: seq<Record>)

  /** Some PC and a later one form a pair that was never merged. */
  predicate HasNewPair(m: multiset<Feature>, pcs: seq<nat>, numPcs: nat) {
    exists i, j | 0 <= i < |pcs| && i < j < |pcs| :: PairFeature(pcs[i], pcs[j], numPcs) !in m
  }

  /** Some feature of an undiscarded domain is unseen. */
  predicate HasUnseen(discarded: set<nat>, m: multiset<Feature>, fv: seq<Feature>) {
    exists f <- fv :: !Discarded(discarded, f) && !Seen(m, f)
  }

  /** What an input contributes: its rare features, then the new pairs of their PCs. */
  function Contribution(rules: Rules, m: multiset<Feature>, fv: seq<Feature>): seq<Feature> {
    var kept := Kept(rules.threshold, rules.discarded, m, fv);
    kept + if rules.usePcPairs then AllPairs(m, kept, rules.numPcs) else []
  }

  /** The input gains coverage. */
  predicate BringsNew(rules: Rules, m: multiset<Feature>, fv: seq<Feature>) {
    || HasUnseen(rules.discarded, m, fv)
    || (rules.usePcPairs && HasNewPair(m, PcsOf(Kept(rules.threshold, rules.discarded, m, fv)), rules.numPcs))
  }

  /** What pruning and pairing compute decides whether the input gains coverage. */
  lemma BringsNewExact(rules: Rules, m: multiset<Feature>, fv: seq<Feature>)
    requires rules.threshold >= 1
    ensures var kept := Kept(rules.threshold, rules.discarded, m, fv);
            BringsNew(rules, m, fv) <==>
            Fresh(rules.discarded, m, fv) > 0 || (rules.usePcPairs && AllPairs(m, kept, rules.numPcs) != [])
    ensures BringsNew(rules, m, fv) ==> Contribution(rules, m, fv) != []
  {
    var kept := Kept(rules.threshold, rules.discarded, m, fv);
    FreshFeatures(rules.threshold, rules.discarded, m, fv);
    PairsFound(m, PcsOf(kept), rules.numPcs);
  }

  lemma PairsFound(m: multiset<Feature>, pcs: seq<nat>, numPcs: nat)
    ensures HasNewPair(m, pcs, numPcs) <==> Pairs(m, pcs, numPcs, |pcs|) != []
  {
    var pairs := Pairs(m, pcs, numPcs, |pcs|);
    if HasNewPair(m, pcs, numPcs) {
      var i, j :| 0 <= i < |pcs| && i < j < |pcs| && PairFeature(pcs[i], pcs[j], numPcs) !in m;
      PairsExact(m, pcs, numPcs, |pcs|, PairFeature(pcs[i], pcs[j], numPcs));
    }
    if pairs != [] {
      PairsExact(m, pcs, numPcs, |pcs|, pairs[0]);
    }
  }

  /** A feature is contributed exactly when it is a rare feature of the input or a new
      pair of its rare PCs. */
  lemma ContributionExact(rules: Rules, m: multiset<Feature>, fv: seq<Feature>, f: Feature)
    ensures var pcs := PcsOf(Kept(rules.threshold, rules.discarded, m, fv));
            f in Contribution(rules, m, fv) <==>
            || (f in fv && Keep(rules.threshold, rules.discarded, m, f))
            || (rules.usePcPairs && f !in m && IsPair(pcs, rules.numPcs, |pcs|, f))
  {
    var kept := Kept(rules.threshold, rules.discarded, m, fv);
    KeptMembers(rules.threshold, rules.discarded, m, fv);
    PairsExact(m, PcsOf(kept), rules.numPcs, |PcsOf(kept)|, f);
  }

  function AfterExecution(rules: Rules, v: View, e: Execution): View {
    if e.passesInputFilter && BringsNew(rules, v.merged, e.features) then
      var fv := Contribution(rules, v.merged, e.features);
      View(v.merged + multiset(fv),
           v.records + if e.passesFunctionFilter then [Record(e.input, fv, e.metadata, e.stats)] else [])
    else v
  }

  function AfterBatch(rules: Rules, v: View, batch: seq<Execution>): View {
    if batch == [] then v else AfterExecution(rules, AfterBatch(rules, v, batch[..|batch| - 1]), batch[|batch| - 1])
  }

  /** Some accepted input of the batch gained coverage when its turn came. */
  predicate BatchGains(rules: Rules, v: View, batch: seq<Execution>) {
    batch != [] &&
    var n := |batch| - 1;
    || BatchGains(rules, v, batch[..n])
    || (batch[n].passesInputFilter && BringsNew(rules, AfterBatch(rules, v, batch[..n]).merged, batch[n].features))
  }

  lemma AfterBatchStep(rules: Rules, v: View, batch: seq<Execution>, i: nat)
    requires i < |batch|
    ensures var before := AfterBatch(rules, v, batch[..i]);
            var gains := batch[i].passesInputFilter && BringsNew(rules, before.merged, batch[i].features);
            && AfterBatch(rules, v, batch[..i + 1]) == AfterExecution(rules, before, batch[i])
            && (BatchGains(rules, v, batch[..i + 1]) <==> BatchGains(rules, v, batch[..i]) || gains)
  {
    assert batch[..i + 1][..i] == batch[..i];
  }

  /** The i-th input of a batch is recorded, with its contribution, exactly when both filters
      accept it and it gains coverage over all inputs before it; then the contribution
      is merged. */
  lemma RecordedExactly(rules: Rules, v: View, batch: seq<Execution>, i: nat)
    requires i < |batch|
    ensures var e, before, after := batch[i], AfterBatch(rules, v, batch[..i]), AfterBatch(rules, v, batch[..i + 1]);
            var fv := Contribution(rules, before.merged, e.features);
            && (e.passesInputFilter && BringsNew(rules, before.merged, e.features) ==> after.merged == before.merged + multiset(fv))
            && (e.passesInputFilter && e.passesFunctionFilter && BringsNew(rules, before.merged, e.features) ==>
                  |after.records| == |before.records| + 1 && before.records <= after.records &&
                  after.records[|before.records|] == Record(e.input, fv, e.metadata, e.stats))
            && (!e.passesInputFilter || !e.passesFunctionFilter || !BringsNew(rules, before.merged, e.features) ==>
                  after.records == before.records)
            && (!e.passesInputFilter || !BringsNew(rules, before.merged, e.features) ==> after == before)
  {
    AfterBatchStep(rules, v, batch, i);
  }

  /** A batch gains coverage exactly when it changes what was merged. */
  lemma {:induction false} GainsExactly(rules: Rules, v: View, batch: seq<Execution>)
    requires rules.threshold >= 1
    ensures v.merged <= AfterBatch(rules, v, batch).merged && v.records <= AfterBatch(rules, v, batch).records
    ensures BatchGains(rules, v, batch) <==> AfterBatch(rules, v, batch).merged != v.merged
  {
    if batch != [] {
      var n := |batch| - 1;
      var before, e := AfterBatch(rules, v, batch[..n]), batch[n];
      GainsExactly(rules, v, batch[..n]);
      if e.passesInputFilter && BringsNew(rules, before.merged, e.features) {
        BringsNewExact(rules, before.merged, e.features);
        Grows(v.merged, before.merged, Contribution(rules, before.merged, e.features));
      }
    }
  }

  lemma Grows(m: multiset<Feature>, m': multiset<Feature>, fv: seq<Feature>)
    requires m <= m' && fv != []
    ensures m <= m' + multiset(fv) && m' + multiset(fv) != m
  {
    assert |m' + multiset(fv)| == |m'| + |fv|;
    assert m' == m + (m' - m);
  }

  /** After a batch nothing of its accepted inputs is new. */
  lemma {:induction false} AfterBatchCovers(rules: Rules, v: View, batch: seq<Execution>)
    requires rules.threshold >= 1
    ensures BatchCovered(rules.discarded, AfterBatch(rules, v, batch).merged, batch)
  {
    if batch != [] {
      var n := |batch| - 1;
      var before, after, e := AfterBatch(rules, v, batch[..n]), AfterBatch(rules, v, batch), batch[n];
      AfterBatchCovers(rules, v, batch[..n]);
      ExecutionCovers(rules, before, e);
      BatchCoveredSnoc(rules.discarded, before.merged, after.merged, batch, n);
      assert batch[..n + 1] == batch;
    }
  }

  lemma ExecutionCovers(rules: Rules, v: View, e: Execution)
    requires rules.threshold >= 1
    ensures var m := AfterExecution(rules, v, e).merged;
            v.merged <= m && (e.passesInputFilter ==> Covered(rules.discarded, m, e.features))
  {
    var m := AfterExecution(rules, v, e).merged;
    if e.passesInputFilter {
      if BringsNew(rules, v.merged, e.features) {
        var kept := Kept(rules.threshold, rules.discarded, v.merged, e.features);
        KeptAreMerged(kept, Contribution(rules, v.merged, e.features), v.merged, m);
        CoveredByKept(rules.threshold, rules.discarded, v.merged, m, e.features);
      } else {
        BringsNewExact(rules, v.merged, e.features);
        CoveredWithoutFresh(rules.threshold, rules.discarded, v.merged, e.features);
      }
    }
  }

  // ------------------------------------------------------------------ shards

  function AfterElement(rules: Rules, v: View, e: Element): View {
    if HasUnseen(rules.discarded, v.merged, e.features) then
      var fv := Kept(rules.threshold, rules.discarded, v.merged, e.features);
      View(v.merged + multiset(fv), v.records + [Record(e.execution.input, fv, [], NO_STATS)])
    else v
  }

  function AfterShard(rules: Rules, v: View, shard: seq<Element>): View {
    if shard == [] then v else AfterElement(rules, AfterShard(rules, v, shard[..|shard| - 1]), shard[|shard| - 1])
  }

  /** The inputs of a shard without stored features. */
  function ToRerun(shard: seq<Element>): seq<Execution> {
    if shard == [] then []
    else
      var e := shard[|shard| - 1];
      ToRerun(shard[..|shard| - 1]) + if e.features == [] then [e.execution] else []
  }

  lemma AfterShardStep(rules: Rules, v: View, shard: seq<Element>, i: nat)
    requires i < |shard|
    ensures AfterShard(rules, v, shard[..i + 1]) == AfterElement(rules, AfterShard(rules, v, shard[..i]), shard[i])
    ensures ToRerun(shard[..i + 1]) == ToRerun(shard[..i]) + if shard[i].features == [] then [shard[i].execution] else []
  {
    assert shard[..i + 1][..i] == shard[..i];
  }

  /** The i-th element of a shard is recorded, with its rare features, exactly when it has
      an unseen feature of an undiscarded domain. */
  lemma LoadedExactly(rules: Rules, v: View, shard: seq<Element>, i: nat)
    requires i < |shard|
    ensures var e, before, after := shard[i], AfterShard(rules, v, shard[..i]), AfterShard(rules, v, shard[..i + 1]);
            var fv := Kept(rules.threshold, rules.discarded, before.merged, e.features);
            && (HasUnseen(rules.discarded, before.merged, e.features) ==>
                  && after.merged == before.merged + multiset(fv)
                  && |after.records| == |before.records| + 1 && before.records <= after.records
                  && after.records[|before.records|] == Record(e.execution.input, fv, [], NO_STATS))
            && (!HasUnseen(rules.discarded, before.merged, e.features) ==> after == before)
  {
    AfterShardStep(rules, v, shard, i);
  }

  lemma {:induction false} ToRerunExact(shard: seq<Element>, x: Execution)
    ensures x in ToRerun(shard) <==> exists e <- shard :: e.features == [] && e.execution == x
  {
    if shard != [] {
      var n := |shard| - 1;
      ToRerunExact(shard[..n], x);
      assert forall e :: e in shard <==> e in shard[..n] || e == shard[n] by {
        assert shard == shard[..n] + [shard[n]];
      }
    }
  }

  lemma {:induction false} ShardGrows(rules: Rules, v: View, shard: seq<Element>, n: nat)
    requires n <= |shard|
    ensures v.merged <= AfterShard(rules, v, shard[..n]).merged
    ensures v.records <= AfterShard(rules, v, shard[..n]).records
  {
    if n > 0 {
      ShardGrows(rules, v, shard, n - 1);
      AfterShardStep(rules, v, shard, n - 1);
    }
  }

  /** After a shard nothing of its stored features is new. */
  lemma {:induction false} AfterShardCovers(rules: Rules, v: View, shard: seq<Element>)
    requires rules.threshold >= 1
    ensures ShardCovered(rules.discarded, AfterShard(rules, v, shard).merged, shard)
  {
    if shard != [] {
      var n := |shard| - 1;
      var before, after, e := AfterShard(rules, v, shard[..n]), AfterShard(rules, v, shard), shard[n];
      AfterShardCovers(rules, v, shard[..n]);
      ElementCovers(rules, before, e);
      ShardCoveredSnoc(rules.discarded, before.merged, after.merged, shard, n);
      assert shard[..n + 1] == shard;
    }
  }

  lemma ElementCovers(rules: Rules, v: View, e: Element)
    requires rules.threshold >= 1
    ensures var m := AfterElement(rules, v, e).merged;
            v.merged <= m && Covered(rules.discarded, m, e.features)
  {
    var m := AfterElement(rules, v, e).merged;
    if HasUnseen(rules.discarded, v.merged, e.features) {
      var kept := Kept(rules.threshold, rules.discarded, v.merged, e.features);
      KeptAreMerged(kept, kept, v.merged, m);
      CoveredByKept(rules.threshold, rules.discarded, v.merged, m, e.features);
    }
  }

  lemma {:induction false} ToRerunUsable(shard: seq<Element>, n: nat)
    requires UsableShard(shard) && n <= |shard|
    ensures Usable(ToRerun(shard[..n]))
  {
    if n > 0 {
      ToRerunUsable(shard, n - 1);
      assert shard[..n][..n - 1] == shard[..n - 1] && shard[n - 1] in shard;
    }
  }

  // ------------------------------------------------------------------- seeds

  /** The records of seeds that are added by force: no features, no metadata, no times. */
  predicate AreSeeds(records: seq<Record>, inputs: seq<Execution>) {
    |records| == |inputs| && forall i | 0 <= i < |inputs| :: records[i] == Record(inputs[i].input, [], [], NO_STATS)
  }

  // --------------------------------------------------------------- reweighing

  /** Updating the weights drops the frequent features of every record. */
  function Reweighed(rules: Rules, v: View): (r: View)
    ensures r.merged == v.merged && |r.records| == |v.records|
  {
    View(v.merged, PrunedRecords(Weighing(rules.threshold, rules.discarded, v.merged, Uniform, Frontier([], [])), v.records))
  }

  /** Inputs executed again, in batches from the end, with a weight update after each. */
  function AfterRerun(rules: Rules, v: View, inputs: seq<Execution>, batchSize: nat): View
    requires batchSize > 0
    decreases |inputs|
  {
    if inputs == [] then v
    else
      var rest := if |inputs| < batchSize then 0 else |inputs| - batchSize;
      AfterRerun(rules, Reweighed(rules, AfterBatch(rules, v, inputs[rest..])), inputs[..rest], batchSize)
  }

  lemma RerunStep(rules: Rules, v: View, inputs: seq<Execution>, end: nat, rest: nat, batchSize: nat)
    requires batchSize > 0 && 0 < end <= |inputs| && rest == if end < batchSize then 0 else end - batchSize
    ensures AfterRerun(rules, v, inputs[..end], batchSize) ==
            AfterRerun(rules, Reweighed(rules, AfterBatch(rules, v, inputs[rest..end])), inputs[..rest], batchSize)
  {
    assert inputs[..end][rest..] == inputs[rest..end] && inputs[..end][..rest] == inputs[..rest];
  }

  /** Record by record: the rare features stay, everything else is kept. */
  lemma ReweighedExactly(rules: Rules, v: View, i: nat)
    requires i < |v.records|
    ensures var r, r' := v.records[i], Reweighed(rules, v).records[i];
            r' == Record(r.data, Kept(rules.threshold, rules.discarded, v.merged, r.features), r.metadata, r.stats)
  {
  }
}
