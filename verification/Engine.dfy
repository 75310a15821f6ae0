/** The update logic of the fuzzing engine: what executed batches, loaded shards and
    seeds do to the feature set and the corpus. The results of executions, the contents
    of shards, the answers of the filters and the moment of a stop request are
    arbitrary. */
module Engine {
  import opened Bytes
  import opened Features
  import opened FeatureSets
  import opened RunnerResults
  import opened Wrappers
  import opened Weights
  import opened Corpora
  import opened Runs

  class Centipede {
    const fs: FeatureSet
    const corpus: Corpus
    const env: Environment
    var frontier: FrontierView
    var stopping: bool
    var sizeAtLastPrune: nat

    function Repr(): set<object> { {this, corpus, corpus.distribution} + fs.Repr() }

    /** The feature set and the corpus are valid, and no record has a feature that was
        not merged. */
    ghost predicate Valid()
      reads Repr()
    {
      && {corpus, corpus.distribution, this} !! fs.Repr()
      && env.maxCorpusSize > 0 && env.batchSize > 0
      && fs.Valid() && corpus.Valid()
      && AllMerged(corpus.records, fs.merged)
      && (corpus.added > 0 ==> corpus.records != [])
    }

    function TheRules(): Rules { Rules(fs.threshold, fs.discarded, env.usePcPairs, env.numPcs) }

    ghost function TheView(): View
      reads fs, corpus
    {
      View(fs.merged, corpus.records)
    }

    predicate SomeWeight()
      reads corpus.distribution
    {
      SomePositive(corpus.distribution.weights)
    }

    constructor (threshold: U8, discarded: set<nat>, how: WeightMethod, env: Environment)
      requires threshold >= 1 && env.maxCorpusSize > 0 && env.batchSize > 0
      ensures Valid() && fresh(Repr()) && corpus.records == [] && corpus.added == 0 && !stopping
    {
      fs := new FeatureSet(threshold, discarded);
      corpus := new Corpus(how);
      this.env := env;
      frontier := Frontier([], []);
      stopping := false;
      sizeAtLastPrune := 0;
    }

    /** A stop request can arrive at any moment, and stays. */
    method ShouldStop() returns (stop: bool)
      modifies this`stopping
      ensures stop == stopping && (old(stopping) ==> stopping)
    {
      var now: bool := *;
      stopping := stopping || now;
      stop := stopping;
    }

    /** Pruning, pair features, and whether the input brings anything new. */
    method Examine(e: Execution) returns (fv: seq<Feature>, gained: bool)
      requires Valid()
      ensures fv == Contribution(TheRules(), fs.merged, e.features) && AllInRange(fv)
      ensures gained <==> BringsNew(TheRules(), fs.merged, e.features)
      ensures gained ==> fv != []
      ensures !gained ==> Covered(fs.discarded, fs.merged, e.features)
    {
      var unseen;
      fv, unseen := fs.PruneFeaturesAndCountUnseen(e.features);
      gained := unseen != 0;
      BringsNewExact(TheRules(), fs.merged, e.features);
      KeptInRange(fs.threshold, fs.discarded, fs.merged, e.features);
      if !gained {
        CoveredWithoutFresh(fs.threshold, fs.discarded, fs.merged, e.features);
      }
      if env.usePcPairs {
        ghost var kept := fv;
        var n;
        fv, n := AddPcPairFeatures(fs, env.numPcs, fv);
        ghost var pcs := PcsOf(kept);
        PairsAreNew(fs.merged, pcs, env.numPcs, |pcs|);
        InRangeConcat(fs.merged, kept, AllPairs(fs.merged, kept, env.numPcs));
        if n != 0 {
          gained := true;
        }
      }
    }

    /** Merge the features, and add the input to the corpus unless the function filter
        rejects it. */
    method MergeAndAdd(e: Execution, fv: seq<Feature>)
      requires Valid() && e.input != [] && AllInRange(fv) && fv != []
      modifies corpus, corpus.distribution, fs.Repr()
      ensures Valid() && fs.merged == old(fs.merged) + multiset(fv)
      ensures corpus.records == old(corpus.records) +
                if e.passesFunctionFilter then [Record(e.input, fv, e.metadata, e.stats)] else []
      ensures old(corpus.distribution.weights) <= corpus.distribution.weights
    {
      fs.MergeFeatures(fv);
      ghost var m, records := fs.merged, corpus.records;
      AllMergedSnoc(records, Record(e.input, fv, e.metadata, e.stats), old(fs.merged), m);
      assert |fv| > 0;
      AddRecord(e, fv);
      assert fs.merged == m;
    }

    method AddRecord(e: Execution, fv: seq<Feature>)
      requires corpus.Valid() && e.input != []
      modifies corpus, corpus.distribution
      ensures corpus.Valid() && corpus.added >= old(corpus.added)
      ensures corpus.records == old(corpus.records) +
                if e.passesFunctionFilter then [Record(e.input, fv, e.metadata, e.stats)] else []
      ensures old(corpus.distribution.weights) <= corpus.distribution.weights
      ensures corpus.added > old(corpus.added) ==> corpus.records != []
    {
      if e.passesFunctionFilter {
        corpus.Add(e.input, fv, e.metadata, e.stats);
      }
    }

    /** The body of the batch loop. The input gains coverage when the input filter accepts it
        and it brings something new; then its contribution is merged, and recorded
        unless the function filter rejects it. Nothing of an accepted input is new afterwards. */
    method ProcessResult(e: Execution) returns (gained: bool)
      requires Valid() && e.input != []
      modifies corpus, corpus.distribution, fs.Repr()
      ensures Valid()
      ensures gained <==> e.passesInputFilter && BringsNew(TheRules(), old(fs.merged), e.features)
      ensures var fv := Contribution(TheRules(), old(fs.merged), e.features);
              && fs.merged == old(fs.merged) + (if gained then multiset(fv) else multiset{})
              && corpus.records == old(corpus.records) +
                   if gained && e.passesFunctionFilter then [Record(e.input, fv, e.metadata, e.stats)] else []
      ensures TheView() == AfterExecution(TheRules(), old(TheView()), e)
      ensures old(corpus.distribution.weights) <= corpus.distribution.weights
      ensures e.passesInputFilter ==> Covered(fs.discarded, fs.merged, e.features)
    {
      var fv, isNew := Examine(e);
      gained := false;
      if isNew && e.passesInputFilter {
        ghost var m := fs.merged;
        MergeAndAdd(e, fv);
        gained := true;
        KeptAreMerged(Kept(fs.threshold, fs.discarded, m, e.features), fv, m, fs.merged);
        CoveredByKept(fs.threshold, fs.discarded, m, fs.merged, e.features);
      }
    }

    /** A batch. It ends early, before anything is looked at, on a stop request; otherwise
        the inputs before the next stop request are processed in order, and the weights are
        updated, so that some weight is positive. */
    method RunBatch(batch: seq<Execution>) returns (gained: bool, ghost early: bool, ghost n: nat)
      requires Valid() && Usable(batch)
      modifies Repr()
      ensures Valid() && old(fs.merged) <= fs.merged && (old(stopping) ==> stopping)
      ensures sizeAtLastPrune == old(sizeAtLastPrune)
      ensures |old(corpus.records)| <= |corpus.records|
      ensures early ==> stopping && !gained && TheView() == old(TheView()) && WeightsAre(old(corpus.distribution.weights))
      ensures !early ==> n <= |batch| && (!stopping ==> n == |batch|)
      ensures !early ==> TheView() == Reweighed(TheRules(), AfterBatch(TheRules(), old(TheView()), batch[..n]))
      ensures !early ==> (gained <==> BatchGains(TheRules(), old(TheView()), batch[..n]))
      ensures !early ==> corpus.records == [] || SomeWeight()
      ensures !stopping ==> BatchCovered(fs.discarded, fs.merged, batch)
    {
      var earlyStop: bool := *;
      early, n := earlyStop, 0;
      if earlyStop {
        stopping := true;
        return false, early, n;
      }
      gained, n := ProcessResults(batch);
      Reweigh();
    }

    /** Every weight is recomputed, and every record keeps its rare features only. */
    method Reweigh()
      requires Valid()
      modifies corpus, corpus.distribution
      ensures Valid() && TheView() == Reweighed(TheRules(), old(TheView()))
      ensures Normalized(FinalWeights(WeighingOf(fs, corpus.how, frontier), env.scaleByExecTime, corpus.records),
                         corpus.distribution.weights)
      ensures corpus.records != [] ==> SomeWeight()
    {
      corpus.UpdateWeights(fs, frontier, env.scaleByExecTime);
      assert corpus.records == Reweighed(TheRules(), old(TheView())).records;
    }

    predicate WeightsAre(weights: seq<nat>)
      reads corpus.distribution
    {
      corpus.distribution.weights == weights
    }

    predicate Unchanged(records: seq<Record>, weights: seq<nat>)
      reads corpus, corpus.distribution
    {
      corpus.records == records && corpus.distribution.weights == weights
    }

    /** The loop over the batch: the inputs before the next stop request, in order. */
    method ProcessResults(batch: seq<Execution>) returns (gained: bool, ghost n: nat)
      requires Valid() && Usable(batch)
      modifies Repr()
      ensures Valid() && old(fs.merged) <= fs.merged && (old(stopping) ==> stopping)
      ensures sizeAtLastPrune == old(sizeAtLastPrune) && frontier == old(frontier)
      ensures |old(corpus.records)| <= |corpus.records|
      ensures n <= |batch| && (!stopping ==> n == |batch|)
      ensures TheView() == AfterBatch(TheRules(), old(TheView()), batch[..n])
      ensures gained <==> BatchGains(TheRules(), old(TheView()), batch[..n])
      ensures !stopping ==> BatchCovered(fs.discarded, fs.merged, batch)
    {
      gained, n := false, 0;
      for i := 0 to |batch|
        invariant Valid() && (old(stopping) ==> stopping)
        invariant sizeAtLastPrune == old(sizeAtLastPrune) && frontier == old(frontier)
        invariant n == i && TheView() == AfterBatch(TheRules(), old(TheView()), batch[..i])
        invariant gained <==> BatchGains(TheRules(), old(TheView()), batch[..i])
      {
        var stop := ShouldStop();
        if stop {
          break;
        }
        assert batch[i] in batch;
        gained := ProcessNext(batch, i, gained, old(TheView()));
        n := n + 1;
      }
      assert batch[..|batch|] == batch;
      GainsExactly(TheRules(), old(TheView()), batch[..n]);
      if !stopping {
        AfterBatchCovers(TheRules(), old(TheView()), batch);
      }
    }

    method ProcessNext(batch: seq<Execution>, i: nat, before: bool, ghost v: View) returns (gained: bool)
      requires Valid() && i < |batch| && batch[i].input != []
      requires TheView() == AfterBatch(TheRules(), v, batch[..i]) && (before <==> BatchGains(TheRules(), v, batch[..i]))
      modifies corpus, corpus.distribution, fs.Repr()
      ensures Valid() && TheView() == AfterBatch(TheRules(), v, batch[..i + 1])
      ensures gained <==> BatchGains(TheRules(), v, batch[..i + 1])
    {
      AfterBatchStep(TheRules(), v, batch, i);
      var g := ProcessResult(batch[i]);
      gained := before || g;
    }

    /** Elements with features are merged and added when they bring something new;
        elements without features are executed again if asked for. Nothing is loaded
        once a stop was requested. */
    method LoadShard(shard: seq<Element>, rerun: bool) returns (ghost n: nat)
      requires Valid() && UsableShard(shard)
      modifies Repr()
      ensures Valid() && old(fs.merged) <= fs.merged && (old(stopping) ==> stopping)
      ensures sizeAtLastPrune == old(sizeAtLastPrune)
      ensures |old(corpus.records)| <= |corpus.records|
      ensures old(stopping) ==> n == 0 && TheView() == old(TheView()) && WeightsAre(old(corpus.distribution.weights))
      ensures n <= |shard| && (!stopping ==> n == |shard|)
      ensures !rerun ==> TheView() == AfterShard(TheRules(), old(TheView()), shard[..n])
      ensures AfterShard(TheRules(), old(TheView()), shard[..n]).merged <= fs.merged
      ensures old(SomeWeight()) ==> SomeWeight()
      ensures !stopping ==> ShardCovered(fs.discarded, fs.merged, shard)
      ensures !stopping && rerun ==> BatchCovered(fs.discarded, fs.merged, ToRerun(shard))
      ensures !stopping && rerun ==>
                TheView() == AfterRerun(TheRules(), AfterShard(TheRules(), old(TheView()), shard), ToRerun(shard), env.batchSize)
    {
      var toRerun;
      toRerun, n := LoadElements(shard, rerun);
      ghost var m := fs.merged;
      ToRerunUsable(shard, n);
      Rerun(toRerun);
      if !stopping {
        ShardCoveredMonotone(fs.discarded, m, fs.merged, shard);
        assert shard[..n] == shard;
      }
    }

    /** Reads the shard; returns the inputs to execute again. */
    method LoadElements(shard: seq<Element>, rerun: bool) returns (toRerun: seq<Execution>, ghost n: nat)
      requires Valid() && UsableShard(shard)
      modifies Repr()
      ensures Valid() && old(fs.merged) <= fs.merged && (old(stopping) ==> stopping)
      ensures sizeAtLastPrune == old(sizeAtLastPrune)
      ensures |old(corpus.records)| <= |corpus.records|
      ensures old(stopping) ==> n == 0 && WeightsAre(old(corpus.distribution.weights))
      ensures n <= |shard| && (!stopping ==> n == |shard|)
      ensures TheView() == AfterShard(TheRules(), old(TheView()), shard[..n])
      ensures toRerun == if rerun then ToRerun(shard[..n]) else []
      ensures old(SomeWeight()) ==> SomeWeight()
      ensures !stopping ==> ShardCovered(fs.discarded, fs.merged, shard)
    {
      toRerun, n := [], 0;
      for i := 0 to |shard|
        invariant Valid() && (old(stopping) ==> stopping) && sizeAtLastPrune == old(sizeAtLastPrune)
        invariant n == i && (old(stopping) ==> i == 0)
        invariant i == 0 ==> WeightsAre(old(corpus.distribution.weights))
        invariant TheView() == AfterShard(TheRules(), old(TheView()), shard[..i])
        invariant toRerun == if rerun then ToRerun(shard[..i]) else []
        invariant old(corpus.distribution.weights) <= corpus.distribution.weights
      {
        var stop := ShouldStop();
        if stop {
          break;  // the callbacks on the remaining elements return at once
        }
        assert shard[i] in shard;
        toRerun := LoadNext(shard, i, rerun, toRerun, old(TheView()));
        n := n + 1;
      }
      assert shard[..|shard|] == shard;
      ShardGrows(TheRules(), old(TheView()), shard, n);
      if !stopping {
        AfterShardCovers(TheRules(), old(TheView()), shard);
      }
      PositivePrefix(old(corpus.distribution.weights), corpus.distribution.weights);
    }

    method LoadNext(shard: seq<Element>, i: nat, rerun: bool, before: seq<Execution>, ghost v: View)
      returns (toRerun: seq<Execution>)
      requires Valid() && i < |shard| && shard[i].execution.input != []
      requires TheView() == AfterShard(TheRules(), v, shard[..i]) && before == if rerun then ToRerun(shard[..i]) else []
      modifies corpus, corpus.distribution, fs.Repr()
      ensures Valid() && TheView() == AfterShard(TheRules(), v, shard[..i + 1])
      ensures toRerun == if rerun then ToRerun(shard[..i + 1]) else []
      ensures old(corpus.distribution.weights) <= corpus.distribution.weights
    {
      AfterShardStep(TheRules(), v, shard, i);
      var again := LoadOne(shard[i], rerun);
      toRerun := before + again;
    }

    /** The callback on one element: loaded if it has features, and otherwise returned if
        inputs are to be executed again. */
    method LoadOne(e: Element, rerun: bool) returns (again: seq<Execution>)
      requires Valid() && e.execution.input != []
      modifies corpus, corpus.distribution, fs.Repr()
      ensures Valid() && old(fs.merged) <= fs.merged && |old(corpus.records)| <= |corpus.records|
      ensures TheView() == AfterElement(TheRules(), old(TheView()), e)
      ensures again == if rerun && e.features == [] then [e.execution] else []
      ensures old(corpus.distribution.weights) <= corpus.distribution.weights
      ensures Covered(fs.discarded, fs.merged, e.features)
    {
      again := [];
      if e.features == [] {
        if rerun {
          again := [e.execution];
        }
      } else {
        LoadElement(e);
      }
    }

    /** One element: merged and recorded, with its rare features, exactly when some feature of
        an undiscarded domain is unseen. */
    method LoadElement(e: Element)
      requires Valid() && e.execution.input != []
      modifies corpus, corpus.distribution, fs.Repr()
      ensures Valid() && old(fs.merged) <= fs.merged
      ensures var isNew, fv := HasUnseen(fs.discarded, old(fs.merged), e.features),
                               Kept(fs.threshold, fs.discarded, old(fs.merged), e.features);
              && fs.merged == old(fs.merged) + (if isNew then multiset(fv) else multiset{})
              && corpus.records == old(corpus.records) +
                   if isNew then [Record(e.execution.input, fv, [], NO_STATS)] else []
      ensures TheView() == AfterElement(TheRules(), old(TheView()), e)
      ensures old(corpus.distribution.weights) <= corpus.distribution.weights
      ensures Covered(fs.discarded, fs.merged, e.features)
    {
      ghost var m := fs.merged;
      var fv, unseen := fs.PruneFeaturesAndCountUnseen(e.features);
      FreshFeatures(fs.threshold, fs.discarded, m, e.features);
      KeptInRange(fs.threshold, fs.discarded, m, e.features);
      if unseen != 0 {
        MergeAndAdd(Execution(e.execution.input, fv, [], NO_STATS, true, true), fv);
        KeptAreMerged(fv, fv, m, fs.merged);
        CoveredByKept(fs.threshold, fs.discarded, m, fs.merged, e.features);
      } else {
        CoveredWithoutFresh(fs.threshold, fs.discarded, m, e.features);
      }
    }

    method Rerun(inputs: seq<Execution>)
      requires Valid() && Usable(inputs)
      modifies Repr()
      ensures Valid() && old(fs.merged) <= fs.merged && (old(stopping) ==> stopping)
      ensures sizeAtLastPrune == old(sizeAtLastPrune)
      ensures |old(corpus.records)| <= |corpus.records|
      ensures old(stopping) || inputs == [] ==> TheView() == old(TheView()) && WeightsAre(old(corpus.distribution.weights))
      ensures old(SomeWeight()) ==> SomeWeight()
      ensures !stopping ==> BatchCovered(fs.discarded, fs.merged, inputs)
      ensures !stopping ==> TheView() == AfterRerun(TheRules(), old(TheView()), inputs, env.batchSize)
    {
      var toRerun := inputs;
      ghost var goal := AfterRerun(TheRules(), TheView(), inputs, env.batchSize);
      assert inputs[..|inputs|] == inputs;
      while toRerun != []
        invariant Valid() && old(fs.merged) <= fs.merged && (old(stopping) ==> stopping)
        invariant sizeAtLastPrune == old(sizeAtLastPrune)
        invariant |old(corpus.records)| <= |corpus.records|
        invariant old(stopping) || inputs == [] ==> TheView() == old(TheView()) && WeightsAre(old(corpus.distribution.weights))
        invariant old(SomeWeight()) ==> SomeWeight()
        invariant |toRerun| <= |inputs| && toRerun == inputs[..|toRerun|]
        invariant !stopping ==> RunFrom(inputs, |toRerun|, goal)
        decreases |toRerun|
      {
        var stop := ShouldStop();
        if stop {
          break;
        }
        var n := if |toRerun| < env.batchSize then |toRerun| else env.batchSize;
        var rest := |toRerun| - n;
        RerunBatch(inputs, |toRerun|, rest, goal);
        toRerun := toRerun[..rest];
        assert toRerun == inputs[..rest];
      }
      assert inputs[0..] == inputs && inputs[..0] == [];
    }

    /** The inputs from `end` on are covered, and running the others leads to the goal. */
    ghost predicate RunFrom(inputs: seq<Execution>, end: nat, goal: View)
      requires env.batchSize > 0 && end <= |inputs|
      reads fs, corpus
    {
      && BatchCovered(fs.discarded, fs.merged, inputs[end..])
      && AfterRerun(TheRules(), TheView(), inputs[..end], env.batchSize) == goal
    }

    /** One batch: the inputs from `rest` to `end`. */
    method RerunBatch(inputs: seq<Execution>, end: nat, rest: nat, ghost goal: View)
      requires Valid() && Usable(inputs) && rest < end <= |inputs|
      requires rest == if end < env.batchSize then 0 else end - env.batchSize
      requires !stopping ==> RunFrom(inputs, end, goal)
      modifies Repr()
      ensures Valid() && old(fs.merged) <= fs.merged && (old(stopping) ==> stopping)
      ensures sizeAtLastPrune == old(sizeAtLastPrune)
      ensures |old(corpus.records)| <= |corpus.records|
      ensures old(SomeWeight()) ==> SomeWeight()
      ensures !stopping ==> RunFrom(inputs, rest, goal)
    {
      ghost var m := fs.merged;
      assert forall e <- inputs[rest..end] :: e in inputs;
      var _, _, k := RunBatch(inputs[rest..end]);
      assert !stopping ==> inputs[rest..end][..k] == inputs[rest..end];
      RerunStep(TheRules(), old(TheView()), inputs, end, rest, env.batchSize);
      if !stopping {
        BatchCoveredJoin(fs.discarded, m, fs.merged, inputs, rest, end);
      }
    }

    /** With no seeds the single byte {0} is the seed. The seeds are run as a batch; if nothing
        was ever added, all of them are added without features. The corpus is not empty
        afterwards. */
    method LoadSeedInputs(seeds: seq<Execution>, byDefault: Execution) returns (ghost early: bool, ghost n: nat)
      requires Valid() && Usable(seeds) && byDefault.input == [0]
      modifies Repr()
      ensures Valid() && old(fs.merged) <= fs.merged && (old(stopping) ==> stopping)
      ensures corpus.records != []
      ensures var inputs := if seeds == [] then [byDefault] else seeds;
              n <= |inputs| &&
              var ran := if early then old(TheView()) else Reweighed(TheRules(), AfterBatch(TheRules(), old(TheView()), inputs[..n]));
              && fs.merged == ran.merged
              && (ran.records != [] ==> corpus.records == ran.records)
              && (ran.records == [] ==> AreSeeds(corpus.records, inputs))
      ensures !stopping ==> !early && BatchCovered(fs.discarded, fs.merged, if seeds == [] then [byDefault] else seeds)
    {
      var inputs := if seeds == [] then [byDefault] else seeds;
      var gained;
      gained, early, n := RunBatch(inputs);
      if early {
        n := 0;
      }
      if corpus.NumTotal() == 0 {
        AddSeeds(inputs);
      }
    }

    method AddSeeds(inputs: seq<Execution>)
      requires Valid() && Usable(inputs) && corpus.records == [] && inputs != []
      modifies corpus, corpus.distribution
      ensures Valid() && AreSeeds(corpus.records, inputs) && fs.merged == old(fs.merged)
    {
      for i := 0 to |inputs|
        invariant Valid() && AreSeeds(corpus.records, inputs[..i]) && fs.merged == old(fs.merged)
      {
        assert inputs[i] in inputs;
        corpus.Add(inputs[i].input, [], [], NO_STATS);
      }
      assert inputs[..|inputs|] == inputs;
    }

    /** Origins for the mutator, one for each random value, drawn by weight if asked for. The
        corpus is not empty and its sums are valid. */
    method PickOrigins(draws: seq<nat>) returns (origins: seq<nat>)
      requires Valid() && corpus.records != [] && |draws| == env.mutateBatchSize
      ensures |origins| == env.mutateBatchSize && forall i | 0 <= i < |origins| :: IsOrigin(draws[i], origins[i])
    {
      origins := [];
      for i := 0 to env.mutateBatchSize
        invariant |origins| == i && forall k | 0 <= k < i :: IsOrigin(draws[k], origins[k])
      {
        var k := PickOrigin(draws[i]);
        origins := origins + [k];
      }
    }

    /** With weights, record k, of positive weight, is what the value x modulo their sum draws,
        unless all are zero; without, it is x modulo the number of records. */
    ghost predicate IsOrigin(x: nat, k: nat)
      reads corpus, corpus.distribution
    {
      var w := corpus.distribution.weights;
      && k < |corpus.records|
      && (env.useCorpusWeights && SomeWeight() ==> Sum(w) > 0 && Draws(w, x % Sum(w), k) && k < |w| && w[k] > 0)
      && (!env.useCorpusWeights ==> k == x % |corpus.records|)
    }

    method PickRandomOrigins() returns (origins: seq<nat>)
      requires Valid() && corpus.records != []
      ensures |origins| == env.mutateBatchSize && forall k <- origins :: k < |corpus.records|
    {
      var draws := RandomDraws(env.mutateBatchSize);
      origins := PickOrigins(draws);
    }

    method PickOrigin(draw: nat) returns (k: nat)
      requires Valid() && corpus.records != []
      ensures IsOrigin(draw, k)
    {
      if !env.useCorpusWeights {
        return draw % |corpus.records|;
      }
      var any: nat := *;
      SumPositive(corpus.distribution.weights);
      var total := Sum(corpus.distribution.weights);
      var x := if total == 0 then 0 else draw % total;
      k := corpus.WeightedRandom(x, any);
      if SomeWeight() {
        DrawsOne(corpus.distribution.weights, x, k, k);
      }
    }

    /** Pruning in the loop. Enough new records were added since the last prune, which
        implies that some weight is positive, so records and weights stay aligned and lose
        the same indices. */
    method MaybePrune() returns (pruned: bool, ghost gone: set<nat>)
      requires Valid() && corpus.records != [] && Weighed()
      modifies Repr()
      ensures Valid() && corpus.records != [] && Weighed() && fs.merged == old(fs.merged) && stopping == old(stopping)
      ensures pruned <==> env.pruneFrequency != 0 && |old(corpus.records)| > old(sizeAtLastPrune) + env.pruneFrequency
      ensures pruned ==> |corpus.records| == Min(env.maxCorpusSize, Weighted(old(corpus.distribution.weights)))
      ensures pruned ==> sizeAtLastPrune == |corpus.records| &&
                         corpus.records == Without(old(corpus.records), gone) &&
                         corpus.distribution.weights == Without(old(corpus.distribution.weights), gone)
      ensures !pruned ==> Unchanged(old(corpus.records), old(corpus.distribution.weights)) && sizeAtLastPrune == old(sizeAtLastPrune)
    {
      pruned := env.pruneFrequency != 0 && |corpus.records| > sizeAtLastPrune + env.pruneFrequency;
      gone := {};
      if pruned {
        var f: FrontierView := *;
        frontier := f;
        gone := PruneCorpus();
        sizeAtLastPrune := |corpus.records|;
      }
    }

    /** Some weight is positive, or nothing was added since the last prune. */
    predicate Weighed()
      reads this, corpus, corpus.distribution
    {
      SomeWeight() || |corpus.records| <= sizeAtLastPrune
    }

    method PruneCorpus() returns (ghost gone: set<nat>)
      requires Valid() && corpus.records != [] && SomeWeight()
      modifies corpus, corpus.distribution
      ensures Valid() && corpus.records != [] && SomeWeight() && corpus.added == old(corpus.added)
      ensures |corpus.records| == Min(env.maxCorpusSize, Weighted(old(corpus.distribution.weights)))
      ensures corpus.records == Without(old(corpus.records), gone) &&
              corpus.distribution.weights == Without(old(corpus.distribution.weights), gone)
    {
      gone := corpus.PruneWeighed(env.maxCorpusSize, fs.merged);
    }

    /** The whole loop, for every sequence of batches and loaded shards. */
    method FuzzingLoop(initial: seq<seq<Element>>, seeds: seq<Execution>, byDefault: Execution, rounds: seq<Round>)
      requires Valid() && (forall s <- initial :: UsableShard(s)) && Usable(seeds) && byDefault.input == [0]
      requires forall r <- rounds :: UsableRound(r)
      modifies Repr()
      ensures Valid() && corpus.records != [] && old(fs.merged) <= fs.merged
      ensures !stopping ==> RoundsCovered(fs.discarded, fs.merged, rounds)
      ensures !stopping ==> BatchCovered(fs.discarded, fs.merged, if seeds == [] then [byDefault] else seeds)
      ensures !stopping ==> ShardsCovered(fs.discarded, fs.merged, initial)
    {
      LoadShards(initial);
      ghost var loaded := fs.merged;
      var _, _ := LoadSeedInputs(seeds, byDefault);
      ghost var seeded := fs.merged;
      sizeAtLastPrune := |corpus.records|;
      RunRounds(rounds);
      if !stopping {
        ShardsCoveredMonotone(fs.discarded, loaded, fs.merged, initial);
        BatchCoveredMonotone(fs.discarded, seeded, fs.merged, if seeds == [] then [byDefault] else seeds);
      }
    }

    method RunRounds(rounds: seq<Round>)
      requires Valid() && corpus.records != [] && Weighed() && forall r <- rounds :: UsableRound(r)
      modifies Repr()
      ensures Valid() && corpus.records != [] && Weighed() && old(fs.merged) <= fs.merged && (old(stopping) ==> stopping)
      ensures !stopping ==> RoundsCovered(fs.discarded, fs.merged, rounds)
    {
      for i := 0 to |rounds|
        invariant Valid() && corpus.records != [] && Weighed() && old(fs.merged) <= fs.merged && (old(stopping) ==> stopping)
        invariant !stopping ==> RoundsCovered(fs.discarded, fs.merged, rounds[..i])
      {
        var stop := ShouldStop();
        if stop {
          break;
        }
        assert rounds[i] in rounds;
        ghost var m := fs.merged;
        var _ := RunRound(rounds[i]);
        if !stopping {
          RoundsCoveredSnoc(fs.discarded, m, fs.merged, rounds, i);
        }
      }
      assert rounds[..|rounds|] == rounds;
    }

    method LoadShards(shards: seq<seq<Element>>)
      requires Valid() && forall s <- shards :: UsableShard(s)
      modifies Repr()
      ensures Valid() && old(fs.merged) <= fs.merged && (old(stopping) ==> stopping)
      ensures !stopping ==> ShardsCovered(fs.discarded, fs.merged, shards)
    {
      for i := 0 to |shards|
        invariant Valid() && old(fs.merged) <= fs.merged && (old(stopping) ==> stopping)
        invariant !stopping ==> ShardsCovered(fs.discarded, fs.merged, shards[..i])
      {
        var rerun: bool := *;
        assert shards[i] in shards;
        ghost var m := fs.merged;
        var _ := LoadShard(shards[i], rerun);
        if !stopping {
          ShardsCoveredMonotone(fs.discarded, m, fs.merged, shards[..i]);
          assert forall s <- shards[..i + 1] :: s in shards[..i] || s == shards[i];
        }
      }
      assert shards[..|shards|] == shards;
    }

    /** One iteration: a batch, perhaps a shard of another engine, perhaps a prune. */
    method RunRound(round: Round) returns (ghost steps: RoundSteps)
      requires Valid() && corpus.records != [] && Weighed() && UsableRound(round)
      modifies Repr()
      ensures Valid() && corpus.records != [] && Weighed() && old(fs.merged) <= fs.merged
      ensures (old(stopping) ==> stopping) && (!stopping ==> RoundCovered(fs.discarded, fs.merged, round))
      ensures steps.batch <= |round.batch| && steps.shard <= (if round.shard.Some? then |round.shard.value| else 0)
      ensures var v := BeforePrune(TheRules(), old(TheView()), round, steps);
              fs.merged == v.merged && corpus.records == if steps.pruned then Without(v.records, steps.gone) else v.records
      ensures !stopping ==> !steps.early && steps.batch == |round.batch| &&
                            (round.shard.Some? ==> steps.shard == |round.shard.value|)
      ensures env.pruneFrequency != 0 ==> |corpus.records| <= sizeAtLastPrune + env.pruneFrequency
      ensures steps.pruned ==> |corpus.records| <= env.maxCorpusSize
    {
      var _ := PickRandomOrigins();
      var _, early, n := RunBatch(round.batch);
      ghost var m, stopped, k: nat := fs.merged, stopping, 0;
      if round.shard.Some? {
        k := LoadShard(round.shard.value, false);
      }
      if !stopped {
        BatchCoveredMonotone(fs.discarded, m, fs.merged, round.batch);
      }
      var pruned, gone := MaybePrune();
      steps := RoundSteps(early, if early then 0 else n, k, pruned, gone);
    }

    /** Steps in any order; a prune needs some positive weight. */
    method RunAny(ops: seq<Op>)
      requires Valid() && forall op <- ops :: UsableOp(op)
      modifies Repr()
      ensures Valid() && old(fs.merged) <= fs.merged
      ensures forall r <- corpus.records :: forall f <- r.features :: Seen(fs.merged, f)
    {
      for i := 0 to |ops|
        invariant Valid() && old(fs.merged) <= fs.merged
      {
        assert ops[i] in ops;
        RunOp(ops[i]);
      }
      AllMergedSeen(corpus.records, fs.merged);
    }

    method RunOp(op: Op)
      requires Valid() && UsableOp(op)
      modifies Repr()
      ensures Valid() && old(fs.merged) <= fs.merged
    {
      match op {
        case Batch(batch) => var _, _, _ := RunBatch(batch);
        case Shard(shard, rerun) => var _ := LoadShard(shard, rerun);
        case Seeds(seeds, byDefault) => var _, _ := LoadSeedInputs(seeds, byDefault);
        case Weigh => Reweigh();
        case Prune =>
          if SomeWeight() {
            var _ := PruneCorpus();
          }
      }
    }
  }

  /** How far the steps of an iteration got: whether the batch was given up, how many of its
      inputs and of the shard's elements were processed, and which records were pruned. */
  datatype RoundSteps = RoundSteps(early: bool, batch: nat, shard: nat, pruned: bool, gone: set<nat>)

  /** What an iteration makes of the features and records, up to its prune. */
  function BeforePrune(rules: Rules, v: View, round: Round, steps: RoundSteps): View
    requires steps.batch <= |round.batch| && steps.shard <= if round.shard.Some? then |round.shard.value| else 0
  {
    var ran := if steps.early then v else Reweighed(rules, AfterBatch(rules, v, round.batch[..steps.batch]));
    if round.shard.Some? then AfterShard(rules, ran, round.shard.value[..steps.shard]) else ran
  }

  datatype Op =
    | Batch(batch: seq<Execution>)
    | Shard(shard: seq<Element>, rerun: bool)
    | Seeds(seeds: seq<Execution>, byDefault: Execution)
    | Weigh
    | Prune

  predicate UsableOp(op: Op) {
    match op
    case Batch(batch) => Usable(batch)
    case Shard(shard, _) => UsableShard(shard)
    case Seeds(seeds, byDefault) => Usable(seeds) && byDefault.input == [0]
    case _ => true
  }
}
