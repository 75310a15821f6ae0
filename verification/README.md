# Centipede: verified models of the engine's stateful algorithms

This project models, in Dafny, the parts of the Centipede fuzzing engine whose correctness
depends on whole runs: feature accounting and distillation, the corpus and its weights, the
engine's update loop, the fork-server protocol, the lossy concurrent sets, the call stack and
rolling hash, the runner-to-engine result stream, the control flow graph and coverage frontier,
and the byte array mutator with its comparison dictionary. `dafny verify dfyconfig.toml` checks
everything.

How the pieces are modelled:

- Objects whose methods update fields are classes; algorithms that work on an array keep the
  array. A growing vector is a `seq` that is reassigned. A reference parameter (`ByteArray &`,
  `FeatureVec &`) is a value in and a value out.
- Random draws, knob choices, timers, filter verdicts and stop requests are arbitrary values, so a
  contract holds for all of them.
- Concurrency is a transition system (`ForkServer`, `BitSets`) or an arbitrary order of atomic
  calls (`Distill`): a run is a sequence of actions, and every lemma quantifies over all of them.
- Fixed-width arithmetic is written out where wrap-around matters (rolling hash, cyclomatic
  complexity, saturating counters, memory images). Weights are real numbers before truncation.
- The `FUZZTEST_CHECK`s of the modelled code are `assert` statements at the same places, or
  preconditions where the check is on an argument; both are proved never to fire from `Valid()`.

Modules: `Bytes`, `Wrappers`, `Sequences`, `Bisection`, `Features`, `FeatureSets`, `Distill`, `Weights`, `Corpora`,
`Runs`, `Engine`, `ForkServer`, `ByteSets`, `BitSets`, `RollingHashes`, `RunnerResults`, `ControlFlow`, `Frontiers`,
`CmpDictionaries`, `Mutators`.

Main results, and where the code does less than its comments say:

1. The whole state of a feature set is a closed form of the multiset of merged features
   (`FeatureSets.FeatureSet.Valid`), so merge order leaves no trace.
2. Distillation covers exactly the first element of every input hash, in every schedule
   (`Distill.CoversFirsts`). It covers the whole corpus whatever the schedule exactly when every
   feature of the corpus is seen by all elements of some hash (`Distill.CoversInEveryOrder`), in
   particular when equal hashes carry equal features; otherwise some order loses coverage, as
   `Distill.HashCollisionLosesCoverage` shows.
3. In every run of the fuzzing loop the corpus records and weights stay aligned, no record holds a
   feature that was not merged, and no check fires (`Engine.Centipede.FuzzingLoop`). What is merged
   and recorded is determined input by input: `Runs.RecordedExactly` and `Runs.LoadedExactly` say
   exactly when, and `Engine.Centipede.RunBatch`, `LoadShard` and `RunRound` that nothing else happens.
   The weights are the rounded shares of the real ones (`Corpora.NormalizedAll`), so a record keeps a
   positive weight exactly when it has at least 2^-16 of the highest (`Corpora.StaysPositive`).
   `Corpus::Prune` by itself breaks the alignment when there are at least two records and all
   weights are zero; the contract of `Corpora.Corpus.Prune` states this as an equivalence, and
   `Corpora.PruneWithoutWeights` is a concrete instance. The loop never gets there: a prune
   follows only after records were added, and then a completed batch has updated the weights.
4. In every run of controller and fork server the reply pipe is in step, every `Wait` gets the
   status of its own child, stop requests reach the child of their own run and no other
   (`ForkServer.EveryStopIsAnswered`), no exit is lost, and the server always gets nearer to its reply.
5. Racing `set()` calls of the bit set may lose bits (`BitSets.RacingSetsLoseABit`) but never
   invent one, and never leave a non-zero word in an unmarked line. A run loses nothing exactly
   when no store overwrites a bit that its call did not load (`BitSets.LossExact`), which holds
   when no two calls have the same word loaded at the same time.
6. Reading any truncation of the runner's output recovers exactly the complete tuples. On any stream
   at all, `RunnerResults.ParseMeans` says when it is accepted and what every field of every result is.
7. The binary-search lookup of the comparison dictionary equals a linear scan on all queries
   exactly when the entries ascend in their first two bytes (`CmpDictionaries.LookupComplete`).
   Well-formed metadata gives such a dictionary; `MutateMany` also goes on after malformed
   metadata, which leaves the dictionary unsorted, and `CmpDictionaries.CompleteAfterMetadata` says
   exactly when nothing is missed then.
8. The comment in `byte_array_mutator.h` promises that mutants stay non-empty. The length setter
   accepts 0, and with that limit erasing can empty an input: exactly when it is longer than the
   alignment (`Mutators.EraseKeepsSomething`). `InsertBytes` stays within its buffer for all inputs
   exactly for alignments up to 21 (`Mutators.InsertBytesSafe`; per input,
   `Mutators.InsertSafeExact`), and inserting from the static dictionary respects the length limit
   exactly when no entry is longer than one byte (`Mutators.DictionaryKeepsLimit`).

## Model

| member | source | states |
|---|---|---|
| `Features.SlotOf` | centipede/feature.h:190-204 | the slot of a score feature is in range and determines the feature without its score bits |
| `Features.ConvertTo` | centipede/feature.h:83-85 | any number lands in the domain it is converted to |
| `Features.DomainIsInterval` | centipede/feature.h:75-94 | a domain is the interval of 2^27 numbers from 2^27 times its id, converting keeps a number up to multiples of 2^27, and gives back any feature from its offset |
| `Features.SlotsExact` | centipede/feature.h:173-204 | comparison scores are the domains 6 to 8, and two features share a slot exactly when they are equal or are scores that agree above the low six bits |
| `Features.FrequencyExact` | centipede/feature_set.cc:126-137 | the frequency of a slot is the number of merges of its largest feature, capped at the threshold, and at 1 for PC pairs |
| `Features.SeenByBest` | centipede/feature_set.cc:50-66 | comparing with the stored score and frequency decides whether a feature of the slot at least as good was merged |
| `Features.SameSeenSameBest` | centipede/feature_set.cc:112-139 | histories that have seen the same features have the same slots and best scores |
| `FeatureSets.FeatureSet.constructor` | centipede/feature_set.h:40-43 | the empty state is the closed form of the empty history |
| `FeatureSets.FeatureSet.HasUnseenFeatures` | centipede/feature_set.cc:50-66 | true exactly when some feature is unseen in the history |
| `FeatureSets.FeatureSet.PruneFeaturesAndCountUnseen` | centipede/feature_set.cc:70-101 | compaction in place leaves, in order, exactly the undiscarded features merged fewer times than the threshold and not outdone by a better score; the count is that of the unseen ones |
| `FeatureSets.FeatureSet.Classify` | centipede/feature_set.cc:73-98 | one feature is kept or dropped, and counted as unseen, by what the history says of it |
| `FeatureSets.FeatureSet.PruneDiscardedDomains` | centipede/feature_set.cc:103-110 | leaves exactly the features of undiscarded domains, in order |
| `FeatureSets.FeatureSet.MergeFeatures` | centipede/feature_set.cc:112-139 | the history grows by the merged features and every frequency, score and counter is again its closed form |
| `FeatureSets.FeatureSet.MergeFeature` | centipede/feature_set.cc:113-138 | the same for one feature: better scores reset the frequency, outdone ones change nothing |
| `FeatureSets.FeatureSet.UpdateSlot` | centipede/feature_set.cc:114-137 | what one merge does to the arrays and counters, and that it touches nothing else |
| `FeatureSets.FeatureSet.GetFrequency` | centipede/feature_set.h:86-95 | the capped number of merges of the feature, or 0 when a better score of its slot was merged |
| `FeatureSets.FeatureSet.ComputeRarityWeight` | centipede/feature_set.cc:142-164 | neither check fires for merged features, and the weight is the sum over the history's frequencies and domain counts |
| `FeatureSets.MergeEffect` | centipede/feature_set.cc:112-139 | what one merge does to frequency, best score and counters of its slot, and that all others stay |
| `FeatureSets.CountersCountFrequencies` | centipede/feature_set.cc:128-131 | total and per-domain counters equal the number of non-zero frequencies |
| `FeatureSets.SameHistorySameState` | centipede/feature_set.cc:112-139 | two sets with the same merged multiset are equal in every array entry and counter |
| `FeatureSets.KeptMembers` | centipede/feature_set.cc:95-97 | membership in the pruned vector, both directions |
| `FeatureSets.KeptConcat` | centipede/feature_set.cc:70-101 | pruning treats each feature on its own and keeps the order |
| `FeatureSets.FreshConcat` | centipede/feature_set.cc:70-101 | so does counting the unseen ones |
| `FeatureSets.UndiscardedConcat` | centipede/feature_set.cc:103-110 | and dropping discarded domains |
| `FeatureSets.KeptOfOne` | centipede/feature_set.cc:73-98 | one feature, in numbers: dropped when outside the 28 domains or discarded, when a better score was merged, or when merged as often as the threshold (once for a PC pair); new when neither it nor a better score was merged |
| `FeatureSets.OutdoneExact` | centipede/feature_set.cc:80-88 | only a comparison score can be outdone, by a larger one that agrees above the low six bits |
| `FeatureSets.FreshFeatures` | centipede/feature_set.cc:91-97 | something unseen is reported exactly when an undiscarded feature is unseen, and then something is kept |
| `FeatureSets.RarityPositive` | centipede/feature_set.cc:142-164 | a record with features has positive rarity weight |
| `FeatureSets.RarityOfOne` | centipede/feature_set.cc:142-164 | the rarity of one feature is the whole number of times its domain's slots fit into all slots, times the whole number of times its frequency fits into 256 |
| `FeatureSets.RarityConcat` | centipede/feature_set.cc:142-164 | rarities add up, each occurrence counted |
| `Distill.DistillingInputFilter.FilterElt` | centipede/distill.cc:270-289 | the filter's fields and statistics are those of the abstract run over the calls so far, and the returned element is what that run writes |
| `Distill.DistillingInputFilter.Filter` | centipede/distill.cc:273-288 | one call takes any state to the state that follows it |
| `Distill.DistillingInputFilter.MergeIfNew` | centipede/distill.cc:282-285 | the trimmed features are merged exactly when one of them is unseen |
| `Distill.CoversFirsts` | centipede/distill.cc:270-289 | in every order of calls the seen features are exactly those of the first element of each hash |
| `Distill.CoversCorpus` | centipede/distill.cc:270-289 | when equal hashes carry equal features, the written elements see what the whole corpus sees |
| `Distill.HashCollisionLosesCoverage` | centipede/distill.cc:277-279 | two inputs with one hash and different features: coverage is lost |
| `Distill.ScheduleIndependent` | centipede/distill.cc:327-334 | when equal hashes carry equal features, any two orders of one corpus end with the same seen features and best scores |
| `Distill.CoversInEveryOrder` | centipede/distill.cc:270-289 | every order of the corpus covers all of it exactly when each of its features is seen by all elements of some hash |
| `Distill.BadOrder` | centipede/distill.cc:277-279 | if every hash has an element that does not see a feature, some order loses it |
| `Distill.WrittenIsMerged` | centipede/distill.cc:283-288 | merging only the written elements reproduces the filter's history |
| `Distill.WrittenExact` | centipede/distill.cc:270-289 | the next call writes the element, trimmed, exactly when no earlier element had its hash and some undiscarded feature of it is unseen among the written ones |
| `Distill.WrittenBound` | centipede/distill.cc:284-288 | at most as many elements are written as there are seen slots plus the sum of best scores |
| `Distill.AssignShards` | centipede/distill.cc:401-413 | every shard goes to exactly one writer and the loads differ by at most one |
| `Weights.WeightedDistribution.AddWeight` | centipede/corpus.cc:302-310 | appends one weight and keeps the cumulative sums exact |
| `Weights.WeightedDistribution.ChangeWeight` | centipede/corpus.cc:312-316 | one weight changes and the sums are marked stale |
| `Weights.WeightedDistribution.RecomputeInternalState` | centipede/corpus.cc:319-326 | the cumulative sums are exact prefix sums again |
| `Weights.WeightedDistribution.RandomIndex` | centipede/corpus.cc:329-344 | binary search finds the index whose interval of random values holds the draw; the two checks never fire |
| `Weights.WeightedDistribution.PopBack` | centipede/corpus.cc:346-351 | undoes the last AddWeight and keeps the sums exact |
| `Weights.WeightedDistribution.RemoveRandomWeightedSubset` | centipede/corpus.h:71-76 | both vectors lose exactly the chosen indices, keep their order and stay of equal size |
| `Weights.DrawCount` | centipede/corpus.cc:329-344 | each index is drawn by exactly weights[i] of the possible random values |
| `Weights.DrawsOne` | centipede/corpus.cc:337-343 | a random value draws one index only, and its weight is not zero |
| `Weights.SomeDraw` | centipede/corpus.cc:337-340 | every random value below the total draws some index |
| `Weights.UpperBound` | centipede/corpus.cc:337-339 | the first element greater than the value, by binary search |
| `Weights.RandomWeightedSubset` | centipede/util.cc:306-358 | a sorted index list with all zero weights and exactly the excess over the target of the others, those with the smallest random keys |
| `Weights.Offer` | centipede/util.cc:339-348 | the bounded queue keeps holding the smallest keys seen |
| `Weights.RemoveSubset` | centipede/util.h:122-135 | in-place compaction removes exactly the listed indices and keeps the order |
| `Weights.WithoutTogether` | centipede/util.h:122-135 | two vectors of one length stay aligned when the same indices are removed from both |
| `Weights.WithoutAt` | centipede/util.h:122-135 | an element that stays moves down by the number of those removed before it |
| `Corpora.ComputeFrontierWeight` | centipede/corpus.cc:51-68 | one plus the weights of the frontier blocks among the features; out-of-table indices count nothing |
| `Corpora.FrontierOfOne` | centipede/corpus.cc:54-66 | what one feature adds: the weight of its block when that is marked; nothing for other domains and for blocks beyond the table |
| `Corpora.FrontierConcat` | centipede/corpus.cc:54-66 | frontier weights add up, each occurrence counted |
| `Corpora.PruneRecord` | centipede/corpus.cc:99-101 | pruning a merged record finds nothing unseen, so the check never fires |
| `Corpora.WeighFeatures` | centipede/corpus.cc:102-121 | zero for a record without features, else base weight times frontier weight |
| `Corpora.WeightsCompared` | centipede/corpus.cc:106-121 | the uniform weight is the frontier factor; recency multiplies it by the position from the oldest on, rarity by the rarity of the features |
| `Corpora.FinalWeightAt` | centipede/corpus.cc:98-159 | each final weight is the raw weight of its own record, times its own time factor when scaled |
| `Corpora.WeighRecords` | centipede/corpus.cc:98-122 | every record is pruned and weighed, and all features left are still merged ones |
| `Corpora.ScaleByExecTime` | centipede/corpus.cc:123-159 | every weight is scaled by its execution time against the average of the timed records |
| `Corpora.TimeFactorMonotone` | centipede/corpus.cc:143-157 | of two timed records the slower never gets the larger factor |
| `Corpora.TimeLadder` | centipede/corpus.cc:137-158 | every threshold of the ladder as an equivalence; a record without statistics keeps its weight |
| `Corpora.AverageExact` | centipede/corpus.cc:124-135 | the average times the number of timed records is the total time |
| `Corpora.TimesConcat` | centipede/corpus.cc:128-133 | times and counts add up over the records |
| `Corpora.FinalWeightPositive` | centipede/corpus.cc:98-159 | before normalization a weight is positive exactly when the record still has features |
| `Corpora.Highest` | centipede/corpus.cc:161-172 | the largest weight, attained by some record |
| `Corpora.NormalizedAll` | centipede/corpus.cc:178-184 | each integer weight is the share of its real weight in the highest one, in units of 2^-16 and rounded down, or that of its position when all are zero; so one is 2^16, order is kept, and zero stays zero |
| `Corpora.StaysPositive` | centipede/corpus.cc:178-184 | a record keeps a positive weight exactly when its real weight is at least 2^-16 of the highest |
| `Corpora.Corpus.SetWeights` | centipede/corpus.cc:160-185 | the weights are the rounded shares of the real ones, and the cumulative sums are exact |
| `Corpora.Corpus.UpdateWeights` | centipede/corpus.cc:93-186 | no check fires, every record is pruned, every weight is the rounded share of its final weight in the highest, and some weight is positive on a non-empty corpus |
| `Corpora.Corpus.PruneWeights` | centipede/corpus.cc:195-209 | zero weights go and min(limit, number of positive weights) weights stay, all positive |
| `Corpora.Corpus.Prune` | centipede/corpus.cc:188-230 | records and weights lose the same indices and stay aligned exactly when there are fewer than two records or some weight is positive; the corpus stays non-empty, within its limit, and every Add is accounted for |
| `Corpora.Corpus.PruneWeighed` | centipede/corpus.cc:188-230 | with some positive weight records and weights lose the same indices, min(limit, number of positive weights) stay, and the whole corpus invariant survives |
| `Corpora.PruneWithoutWeights` | centipede/corpus.cc:210-217 | two fresh records and a prune leave one record and no weight |
| `Corpora.Corpus.Add` | centipede/corpus.cc:232-243 | one record and one zero weight are appended; the size check never fires |
| `Corpora.Corpus.WeightedRandom` | centipede/corpus.cc:245-247 | an index of a record, drawn by weight |
| `Runs.AddPcPairFeatures` | centipede/centipede.cc:413-441 | appends, in order, exactly the pair features that were never merged |
| `Runs.PairsExact` | centipede/centipede.cc:427-439 | a feature is added exactly when it is an unmerged pair of an earlier and a later PC of the input |
| `Runs.PcsExact` | centipede/centipede.cc:421-425 | the PCs of an input are the offsets of its features of the PC domain |
| `Runs.PairsDistinct` | centipede/feature.h:273-276 | in a table with at most 2^27 pairs, different pairs are different features |
| `Runs.PairNumber` | centipede/centipede.cc:432-433 | there the pair feature is the first number of the pair domain plus pc1 times the table size plus pc2 |
| `Runs.PairsAreNew` | centipede/centipede.cc:432-436 | every added feature is an unmerged feature of the pair domain |
| `Runs.CoveredByKept` | centipede/centipede.cc:474-484 | merging what pruning keeps leaves nothing of the input unseen |
| `Runs.BringsNewExact` | centipede/centipede.cc:474-476 | the code's counters decide whether some undiscarded feature is unseen or some pair of the kept PCs is unmerged, and then something is merged |
| `Runs.ContributionExact` | centipede/centipede.cc:474-476 | a feature is merged exactly when it is a kept feature of the input or an unmerged pair of the kept PCs |
| `Runs.RecordedExactly` | centipede/centipede.cc:470-503 | the i-th input of a batch is merged exactly when the input filter accepts it and it is new by then, and recorded, as one record at the end, exactly when the function filter accepts it too |
| `Runs.GainsExactly` | centipede/centipede.cc:469-516 | a batch reports new coverage exactly when it changed what was merged; nothing merged or recorded is lost |
| `Runs.AfterBatchCovers` | centipede/centipede.cc:470-503 | after a batch no accepted input has an unseen undiscarded feature |
| `Runs.LoadedExactly` | centipede/centipede.cc:527-549 | the i-th element of a shard is merged and recorded, with its kept features and no statistics, exactly when an undiscarded feature is unseen by then |
| `Runs.ToRerunExact` | centipede/centipede.cc:530-533 | exactly the elements without features are to be executed again |
| `Runs.ReweighedExactly` | centipede/corpus.cc:98-101 | a weight update keeps every record and drops from each exactly the features pruning drops |
| `Engine.Centipede.Examine` | centipede/centipede.cc:472-476 | the features to merge are the pruned ones followed by all unmerged pairs of their PCs; the input gains coverage exactly when it has an unseen undiscarded feature or such a pair |
| `Engine.Centipede.MergeAndAdd` | centipede/centipede.cc:484-491 | features are merged before the record is added, so the new record has merged features only |
| `Engine.Centipede.ProcessResult` | centipede/centipede.cc:470-503 | coverage is gained exactly when the input filter accepts the input and it is new; then exactly its kept features and new pairs are merged, and one record with them is appended exactly when the function filter accepts it; afterwards an accepted input has no unseen feature |
| `Engine.Centipede.RunBatch` | centipede/centipede.cc:443-516 | either a stop came first and nothing changed, or the inputs before the next stop were processed in order as `Runs.AfterBatch` says, the flag tells whether one gained coverage, and the weights were updated, so that some weight is positive on a non-empty corpus |
| `Engine.Centipede.Reweigh` | centipede/corpus.cc:93-186 | the weights are those of the records as they are, and nothing but frequent features is dropped from them |
| `Engine.Centipede.LoadShard` | centipede/centipede.cc:519-571 | the elements before the next stop are loaded as `Runs.AfterShard` says; nothing else changes without rerunning, and with it the elements without features are then run as `Runs.AfterRerun` says; no positive weight is lost; unless stopped, neither a loaded element nor a rerun input has an unseen undiscarded feature afterwards |
| `Engine.Centipede.LoadElement` | centipede/centipede.cc:534-549 | the element is merged and recorded, with its kept features, exactly when an undiscarded feature is unseen, and is covered afterwards |
| `Engine.Centipede.Rerun` | centipede/centipede.cc:590-609 | unless stopped, exactly what running the inputs in batches from the end, with a weight update after each, makes of history and records; keeps the invariant, and no accepted input has an unseen feature afterwards |
| `Engine.Centipede.LoadSeedInputs` | centipede/centipede.cc:782-813 | runs the seeds, or the single byte 0, as a batch, which covers them unless stopped; when nothing is in the corpus then, exactly these inputs are added without features; the corpus is not empty afterwards |
| `Engine.Centipede.PickOrigins` | centipede/centipede.cc:884-892 | one origin per random value: with weights, the record of positive weight that the value modulo their sum draws, unless all are zero; without, the record at the value modulo the number of records |
| `Engine.Centipede.MaybePrune` | centipede/centipede.cc:933-940 | prunes exactly when more records were added since the last prune than the frequency allows, never in the misaligning case; then records and weights lose the same indices and min(limit, number of positive weights) stay, and otherwise nothing changes |
| `Engine.Centipede.RunRound` | centipede/centipede.cc:874-941 | one iteration merges and records what its batch and shard bring, then loses exactly the pruned indices; the corpus never exceeds its size at the last prune by more than the prune frequency |
| `Engine.Centipede.FuzzingLoop` | centipede/centipede.cc:815-941 | for all batches, shards, seeds, draws and stop requests the engine invariant holds throughout, the corpus stays non-empty and, unless stopped, no input loaded at the start, run as a seed, or accepted or loaded in a round has an unseen undiscarded feature at the end |
| `Engine.Centipede.RunAny` | centipede/centipede.cc:443-571 | the same for batches, shard loads, seed loads, weight updates and prunes in any order; no record ever has an unseen feature |
| `ForkServer.RunInv` | centipede/runner_fork_server.cc:256-385 | every state of every run of controller, server and child satisfies the protocol invariant |
| `ForkServer.ReplyPipeInSync` | centipede/command.cc:390-470 | the head of the reply pipe is always what the controller reads next, and no read is short |
| `ForkServer.WaitGetsItsOwnChild` | centipede/command.cc:431-470 | the k-th completed Wait returns the raw status of the k-th forked child |
| `ForkServer.StopsReachTheirOwnChild` | centipede/command.cc:525-537 | stop requests find their signal blocked, are forwarded to no child but that of their own run, never to a reaped one, and never end the server |
| `ForkServer.StopIsRaised` | centipede/command.cc:525-533 | a stop request makes SIGTERM, or SIGUSR1 when forced, pending at the living server |
| `ForkServer.StopIsForwarded` | centipede/runner_fork_server.cc:343-357 | a waiting server that takes it sends exactly one signal, SIGTERM or SIGKILL as asked, to the child of the current run |
| `ForkServer.EveryStopIsAnswered` | centipede/runner_fork_server.cc:256-385 | over every run, each stop request was forwarded to the child of its own run with the signal asked for, or is still pending, or that child is gone |
| `ForkServer.ServerMakesProgress` | centipede/runner_fork_server.cc:256-385 | a server with something to do replies or gets nearer to its reply with its next step, whichever signals are pending |
| `ForkServer.ServerReplies` | centipede/runner_fork_server.cc:297-384 | one child per request, one ack, then the raw status of that child |
| `ForkServer.ControllerMakesProgress` | centipede/command.cc:390-470 | one request per execution, the ack is taken, and Wait returns the status of the current child as soon as it is in the pipe |
| `ForkServer.NothingLeftOverAtFork` | centipede/runner_fork_server.cc:263-296 | at a fork no stop request or child event is pending, and mask and handlers are restored |
| `ForkServer.ExitIsNeverLost` | centipede/runner_fork_server.cc:322-370 | while the server waits for a signal, a dead unreaped child has SIGCHLD pending, and taking it reaps the child |
| `ByteSets.ForEachNonZeroByte` | centipede/foreach_nonzero.h:31-66 | for any address and length the word scan makes the calls of the byte loop and clears the buffer |
| `ByteSets.NonZeroExact` | centipede/foreach_nonzero.h:31-66 | a call is made exactly for the non-zero bytes of the range, with their values |
| `ByteSets.NonZeroAscends` | centipede/foreach_nonzero.h:31-66 | the calls ascend, so none is made twice |
| `ByteSets.ScanWord` | centipede/concurrent_byteset.h:93-104 | one word is reported byte by byte and cleared |
| `ByteSets.ConcurrentByteSet.ForEachNonZeroByte` | centipede/concurrent_byteset.h:85-105 | reports the non-zero bytes of the range in order and clears exactly the range |
| `ByteSets.ConcurrentByteSet.Set` | centipede/concurrent_byteset.h:68-71 | one byte changes |
| `ByteSets.ConcurrentByteSet.SaturatedIncrement` | centipede/concurrent_byteset.h:74-79 | one byte is incremented, stopping at 255 |
| `ByteSets.TwoLayerConcurrentByteSet.Set` | centipede/concurrent_byteset.h:138-142 | the upper layer still covers the lower one |
| `ByteSets.TwoLayerConcurrentByteSet.SaturatedIncrement` | centipede/concurrent_byteset.h:144-148 | the upper layer still covers the lower one |
| `ByteSets.TwoLayerConcurrentByteSet.ForEachNonZeroByte` | centipede/concurrent_byteset.h:150-164 | skipping unmarked regions, reports what a flat scan of the lower layer reports and clears the range of both layers; a reversed range scans nothing |
| `ByteSets.RunBoth` | centipede/concurrent_byteset.h:119-172 | any sequence of operations gives the same callbacks in the same order on a flat and a layered set |
| `BitSets.RacingSetsAreSafe` | centipede/concurrent_bitset.h:76-88 | in every interleaving no unrequested bit appears, every non-zero word has its line marked, each finished call leaves its word non-zero |
| `BitSets.UninterruptedSet` | centipede/concurrent_bitset.h:76-88 | a call that is not interrupted adds exactly its bit |
| `BitSets.RacingSetsLoseABit` | centipede/concurrent_bitset.h:82-87 | two racing calls both return and one bit is lost |
| `BitSets.DropsExact` | centipede/concurrent_bitset.h:82-87 | a step makes a bit disappear exactly when it stores a word that lacks a bit, other than its own, that memory holds |
| `BitSets.LossExact` | centipede/concurrent_bitset.h:76-88 | over any run of racing calls, at every moment exactly the old bits and those of the finished calls are held if and only if no store drops a bit |
| `BitSets.ExclusiveCallsLoseNothing` | centipede/concurrent_bitset.h:76-88 | calls that never have the same word loaded at the same time lose nothing, however else they overlap |
| `BitSets.ConcurrentBitSet.Set` | centipede/concurrent_bitset.h:76-88 | without a race exactly one bit is added |
| `BitSets.ConcurrentBitSet.Get` | centipede/concurrent_bitset.h:91-98 | reads the bit at the index modulo the size |
| `BitSets.ConcurrentBitSet.ForEachNonZeroBit` | centipede/concurrent_bitset.h:102-127 | visiting marked lines only, reports the held bits and clears all words and lines |
| `BitSets.ReportWord` | centipede/concurrent_bitset.h:117-125 | the lowest-bit loop lists the bits of a word in ascending order |
| `BitSets.HeldBitsAscend` | centipede/concurrent_bitset.h:114-127 | the reported indices ascend strictly, so none is reported twice |
| `BitSets.HeldBitsExact` | centipede/concurrent_bitset.h:114-127 | exactly the held bits are reported |
| `BitSets.ScanOfRace` | centipede/concurrent_bitset.h:76-127 | after any race a scan reports only requested bits and some bit of the word of every finished call |
| `BitSets.ScanAfterRace` | centipede/concurrent_bitset.h:102-127 | the scan method run on the memory a race has left |
| `RollingHashes.UpdateIsExact` | centipede/rolling_hash.h:47-50 | the mixed 64/32-bit update computes its formula modulo 2^32 whatever overflows |
| `RollingHashes.RollingStep` | centipede/rolling_hash.h:47-63 | one update turns the from-scratch hash of a window into that of the next window |
| `RollingHashes.ReferenceIsPoly` | centipede/rolling_hash.h:61-63 | the reference hash is the polynomial over the items reduced to 32 bits, modulo 2^32 |
| `RollingHashes.ReferenceIsPolynomial` | centipede/rolling_hash.h:61-63 | the hash of any items is the sum of items[i] * multiplier^(n-1-i) over the raw items, modulo 2^32 |
| `RollingHashes.ReferenceOfTwo` | centipede/rolling_hash.h:47-63 | one item hashes to its low 32 bits, and the multiplier is 2^32 - 267 |
| `RollingHashes.WindowExact` | centipede/hashed_ring_buffer.h:56-64 | the window is the end of the history, as long as the ring or shorter |
| `RollingHashes.RollingHash.Reset` | centipede/rolling_hash.h:38-44 | the multiplier power is exact modulo 2^64 |
| `RollingHashes.RollingHash.Updated` | centipede/rolling_hash.h:47-54 | from the hash of a window over a history to that of the extended history |
| `RollingHashes.HashedRingBuffer.Reset` | centipede/hashed_ring_buffer.h:70-76 | an empty history and a zero hash, for every size including 0 |
| `RollingHashes.HashedRingBuffer.Push` | centipede/hashed_ring_buffer.h:56-64 | after any pushes the hash of a ring of positive size is the polynomial of the last window of raw items modulo 2^32; for size 0 it is what the last item adds to the hash of the history |
| `RollingHashes.HashedRingBuffer.Store` | centipede/hashed_ring_buffer.h:57-62 | the evicted cell is the item that leaves the window |
| `RollingHashes.WindowLaw` | centipede/hashed_ring_buffer.h:56-64 | the window law holds for every positive size, and for size 0 exactly when the last item leaves the hash of the history unchanged |
| `RollingHashes.ZeroSizeRing` | centipede/hashed_ring_buffer.h:56-64 | for size 0 the window law fails on the first push unless the item hashes to 0 |
| `RollingHashes.CallStack.Reset` | centipede/callstack.h:100-104 | an empty stack and history |
| `RollingHashes.CallStack.OnFunctionEntry` | centipede/callstack.h:81-96 | the kept frames are the first ones of the unbounded stack over all entries, with exact frame hashes |
| `RollingHashes.CallStack.Hash` | centipede/callstack.h:76-76 | the polynomial of the PCs of the last window of kept frames, modulo 2^32 |
| `RollingHashes.UnboundedIsSurvivors` | centipede/callstack.h:83-85 | an entry is on the unbounded stack exactly when every later entry has a strictly smaller stack pointer |
| `RollingHashes.SurvivorsExact` | centipede/callstack.h:83-96 | each surviving entry is on the stack once, right after the survivors before it |
| `RollingHashes.FrameAt` | centipede/callstack.h:88-95 | each frame keeps its own PC and stack pointer |
| `RollingHashes.KeptAfter` | centipede/callstack.h:81-96 | cutting at the depth limit commutes with unwinding and pushing |
| `RollingHashes.FrameHashAt` | centipede/callstack.h:88-95 | every live frame holds the from-scratch hash of the window ending in it |
| `RunnerResults.BatchResult.Read` | centipede/runner_result.cc:97-154 | any stream is accepted exactly when every blob is welcome where it stands; then each result is that of the blobs between its beginning and the next, all others are untouched, and the outputs counted are the ends |
| `RunnerResults.ParseMeans` | centipede/runner_result.cc:97-154 | the same for the abstract parser: acceptance, counts and every field of every result from the tags alone |
| `RunnerResults.ValidExact` | centipede/runner_result.cc:103-104 | the stream ends at the first invalid blob |
| `RunnerResults.DecodeWordsAt` | centipede/runner_result.cc:132-136 | the i-th feature is read from its own eight bytes |
| `RunnerResults.DecodeDispatcherAt` | centipede/runner_result.cc:138-149 | the i-th dispatcher feature is read from its own four bytes and reduced to the sixteen user domains |
| `RunnerResults.DecodeStatsAt` | centipede/runner_result.cc:124-128 | each statistic is read from its own eight bytes |
| `RunnerResults.StreamLayout` | centipede/runner.cc:469-488 | begin, features, metadata, statistics, end, for every input at its place |
| `RunnerResults.WordsRoundTrip` | centipede/runner_result.cc:54-58 | decoding the encoded features gives them back |
| `RunnerResults.StatsRoundTrip` | centipede/runner_result.cc:76-80 | decoding the encoded statistics gives them back |
| `RunnerResults.BlobSequence.Write` | centipede/shared_memory_blob_sequence.cc:43-72 | a blob is appended exactly when it fits, else nothing changes; the offset is the size of what was written |
| `RunnerResults.WriteTuple` | centipede/runner.cc:469-488 | a prefix of the input's tuple is written, all of it on success; it ends only where the target fails or the next blob does not fit |
| `RunnerResults.ExecuteInputs` | centipede/runner.cc:502-521 | what is written is a prefix of the stream of all tuples, cut only where the target failed or the next blob does not fit |
| `RunnerResults.TruncationIsRead` | centipede/runner_result.cc:91-154 | any truncation is accepted, exactly the complete tuples are counted and recovered |
| `RunnerResults.SuspectIsTheUnfinishedInput` | centipede/centipede.cc:958-959 | the suspect index is the input that had begun but not ended |
| `RunnerResults.RunAndRead` | centipede/runner.cc:493-521 | from runner to engine: of what was written exactly the complete tuples are counted and read back |
| `ControlFlow.ComputeReachabilityForPc` | centipede/control_flow.cc:186-202 | on every finite graph the search ends with exactly the blocks reachable through existing blocks |
| `ControlFlow.CountEdgesAndNodes` | centipede/control_flow.cc:206-223 | the nodes and edges of the reachable subgraph, with at least nodes - 1 edges |
| `ControlFlow.ComputeFunctionCyclomaticComplexity` | centipede/control_flow.cc:204-226 | edges - nodes + 2 of the reachable subgraph; at least 1 before narrowing |
| `ControlFlow.ComplexityExact` | centipede/control_flow.cc:204-226 | from any list of the reachable blocks: the edges that leave them, minus their number, plus 2, modulo 2^32 |
| `ControlFlow.OutDegreeExact` | centipede/control_flow.cc:218-222 | each occurrence of an existing successor is one edge |
| `ControlFlow.ExistingConcat` | centipede/control_flow.cc:218-222 | existing successors are taken one by one, in order |
| `ControlFlow.ComplexityOfLeaf` | centipede/control_flow.cc:204-226 | a function that leads nowhere has complexity 1 |
| `ControlFlow.ControlFlowGraph.Initialize` | centipede/control_flow.cc:137-177 | graph, PC index, entries and complexities are those of the table |
| `ControlFlow.ControlFlowGraph.BuildGraph` | centipede/control_flow.cc:143-166 | parsing the zero-delimited table gives back the blocks it was flattened from |
| `ControlFlow.GraphExact` | centipede/control_flow.cc:143-157 | the keys are the PCs of the blocks, and each maps to the successors of its last block |
| `ControlFlow.FlattenConcat` | centipede/control_flow.cc:143-166 | a table is one block after the other |
| `ControlFlow.FlattenHead` | centipede/control_flow.cc:143-166 | a block is its PC, its successors, a zero, its callees and a zero |
| `ControlFlow.EntryFlagsAt` | centipede/control_flow.cc:168-171 | each entry flag is that of its own block |
| `ControlFlow.IndexIsExact` | centipede/control_flow.cc:168-169 | with distinct PCs the index maps each to its position and nothing else |
| `ControlFlow.ComplexitiesAreExact` | centipede/control_flow.cc:170-175 | exactly the function entries have a complexity, and it is theirs |
| `Frontiers.Coverage.constructor` | centipede/coverage.cc:40-90 | covered blocks per index, and functions covered in full |
| `Frontiers.FindFunctionEnd` | centipede/coverage.h:96-103 | the next function entry or the end of the table |
| `Frontiers.ComputeFrontierWeight` | centipede/coverage.cc:197-232 | the sum over the callees by coverage kind and complexity |
| `Frontiers.CalleeWeightExact` | centipede/coverage.cc:197-232 | 153, 77 or 25 times the complexity for an uncovered, partly or fully covered callee; 153 for an indirect one; nothing for one outside the table |
| `Frontiers.CalleesConcat` | centipede/coverage.cc:206-230 | callees add up, each occurrence counted |
| `Frontiers.WeighBehind` | centipede/corpus.cc:420-433 | the weight of all uncovered blocks reachable from a successor |
| `Frontiers.BehindExact` | centipede/corpus.cc:420-433 | from any list of the reachable blocks: the calls of those in the table that are not covered |
| `Frontiers.SuccessorsConcat` | centipede/corpus.cc:403-434 | the weight of a block is the sum of what lies behind its uncovered successors, each occurrence counted |
| `Frontiers.BehindLeaf` | centipede/corpus.cc:420-433 | behind an uncovered block that leads nowhere lie its own calls |
| `Frontiers.CoverageFrontier.MarkCovered` | centipede/corpus.cc:364-377 | a block of the table is marked exactly when some record has its PC feature |
| `Frontiers.CoverageFrontier.Compute` | centipede/corpus.cc:361-439 | a block is frontier exactly when some record hits it and none hits some successor of it in the table; every other block has weight 0; the result counts the functions with a block that is hit and one that is not |
| `Frontiers.CoveredExact` | centipede/corpus.cc:369-377 | the covered blocks are exactly those of the table that some record hits |
| `Frontiers.ComputeMeans` | centipede/corpus.cc:361-439 | frontier flags, zero weights and partly covered functions, from the records alone |
| `Frontiers.FrontierAt` | centipede/corpus.cc:396-435 | a block is frontier exactly when covered with an uncovered successor in the table; every other block has weight 0 |
| `Frontiers.WeightOfNonFrontier` | centipede/corpus.cc:396-435 | only frontier blocks have weight |
| `CmpDictionaries.ExecutionMetadata.AppendCmpEntry` | centipede/execution_metadata.cc:25-33 | a pair of equal sizes below 256 is appended as size, first, second; any other is refused |
| `CmpDictionaries.ExecutionMetadata.ForEachCmpEntry` | centipede/execution_metadata.cc:44-56 | the pairs before the first malformed entry, and whether there is none |
| `CmpDictionaries.DecodeEncode` | centipede/execution_metadata.cc:25-56 | decoding gives back exactly the appended pairs |
| `CmpDictionaries.EncodeDecode` | centipede/execution_metadata.cc:44-56 | a successful decoding accounts for every byte |
| `CmpDictionaries.DecodeAccounts` | centipede/execution_metadata.cc:44-56 | any buffer is the encoding of the pairs found, followed by nothing on success and otherwise by an entry that announces more bytes than there are |
| `CmpDictionaries.EncodedBytes` | centipede/execution_metadata.cc:25-33 | a size byte, the first operand, the second operand |
| `CmpDictionaries.AppendAndRead` | centipede/execution_metadata.cc:25-56 | any sequence of appended pairs is handed back in order |
| `CmpDictionaries.Image` | centipede/byte_array_mutator.h:39-56 | the memory image of an entry: its bytes, zero padding, its size |
| `CmpDictionaries.MemLeqExact` | centipede/byte_array_mutator.h:48-50 | the first byte that differs decides |
| `CmpDictionaries.PairLeqExact` | centipede/byte_array_mutator.h:48-50 | pairs are ordered by the memory images of the first components, then of the second |
| `CmpDictionaries.PairTotal` | centipede/byte_array_mutator.h:48-50 | any two pairs of entries are comparable |
| `CmpDictionaries.PairTransitive` | centipede/byte_array_mutator.h:48-50 | the order of pairs of entries is transitive |
| `CmpDictionaries.PairAntisymmetric` | centipede/byte_array_mutator.h:48-50 | only equal pairs are below each other: padding and size byte make the memory image injective |
| `CmpDictionaries.SortSorts` | centipede/byte_array_mutator.cc:45-45 | sorted, and a permutation |
| `CmpDictionaries.SortedUnique` | centipede/byte_array_mutator.cc:45-45 | every correct sort leaves the same dictionary |
| `CmpDictionaries.CmpDictionary.SetFromMetadata` | centipede/byte_array_mutator.cc:34-47 | both orientations of every pair of size 2 to 128, sorted; on malformed metadata false and the entries found so far, unsorted |
| `CmpDictionaries.OrientedCount` | centipede/byte_array_mutator.cc:34-44 | every observed comparison counts once in either orientation |
| `CmpDictionaries.LessByHead` | centipede/byte_array_mutator.h:48-55 | against two bytes, comparing memory images compares the first two bytes |
| `CmpDictionaries.LowerBound` | centipede/byte_array_mutator.cc:60-62 | where bisection by the first two bytes ends, on any dictionary |
| `Bisection.BisectAscending` | centipede/byte_array_mutator.cc:54-62 | in an ascending sequence bisection ends at the first element not below the target |
| `Bisection.FoundMeansAscending` | centipede/byte_array_mutator.cc:54-62 | a sequence in which bisection for every element finds the run of its equals that reaches it is ascending |
| `CmpDictionaries.ScanMatches` | centipede/byte_array_mutator.cc:63-78 | the suggestions of the scan that stops at the capacity or at other first two bytes |
| `CmpDictionaries.ScanIsRun` | centipede/byte_array_mutator.cc:65-78 | the scan yields the matches of the run of entries with the query's first two bytes, cut at the capacity |
| `CmpDictionaries.LookupIsLinearScan` | centipede/byte_array_mutator.cc:49-79 | when the entries ascend in their first two bytes, bisection and early stop give exactly the linear scan cut at the capacity |
| `CmpDictionaries.LookupComplete` | centipede/byte_array_mutator.cc:49-79 | the lookup equals the linear scan on all queries and capacities if and only if the entries ascend in their first two bytes |
| `CmpDictionaries.SortedHeadsAscend` | centipede/byte_array_mutator.cc:45-45 | a sorted dictionary ascends in the first two bytes |
| `CmpDictionaries.CompleteAfterMetadata` | centipede/byte_array_mutator.cc:34-47 | after any metadata the lookup is complete if and only if it decodes or the comparisons before the malformed entry need no sorting |
| `CmpDictionaries.LookupSound` | centipede/byte_array_mutator.cc:49-79 | in any dictionary only partners of matching entries are suggested, and no more than the capacity |
| `CmpDictionaries.MalformedMetadataMisses` | centipede/byte_array_mutator.cc:34-47 | one comparison followed by a malformed entry leaves an unsorted dictionary whose lookup misses a match |
| `CmpDictionaries.CmpDictionary.SuggestReplacement` | centipede/byte_array_mutator.cc:49-79 | on any dictionary the result of bisection and scan, hence only partners of matching entries; when the first two bytes ascend exactly the linear scan cut at the capacity |
| `CmpDictionaries.MatchesExact` | centipede/byte_array_mutator.h:72-75 | a suggestion is the partner of an entry that is a prefix of the query, and conversely |
| `CmpDictionaries.MatchesOfSort` | centipede/byte_array_mutator.cc:45-45 | sorting changes the order of the suggestions only |
| `CmpDictionaries.ExtensionNotBelow` | centipede/byte_array_mutator.h:48-55 | an entry that starts with two bytes is not below them: zero padding is least |
| `CmpDictionaries.NoMatchOutsideRun` | centipede/byte_array_mutator.cc:60-72 | when the first two bytes ascend, no match lies before the start of the scan or after its end |
| `CmpDictionaries.AppendAndSuggest` | centipede/byte_array_mutator.cc:34-79 | from appended comparisons to suggestions, end to end |
| `CmpDictionaries.SuggestionsExact` | centipede/byte_array_mutator.h:72-75 | the suggestions are the partners, in either orientation, of the observed operands of size 2 to 128 that are prefixes of the query |
| `Mutators.RoundUpIsLeast` | centipede/byte_array_mutator.cc:82-90 | the new length is the least aligned one that holds the request, cut at the limit |
| `Mutators.RoundDownIsLargest` | centipede/byte_array_mutator.cc:92-106 | the new length is the largest aligned one within request and limit, at least one alignment; with limit 0 it is one alignment or nothing |
| `Mutators.LimitZeroErasesAll` | centipede/byte_array_mutator.cc:92-106 | with limit 0, erasing one byte of an input longer than the alignment erases all of it |
| `Mutators.EraseKeepsSomething` | centipede/byte_array_mutator.cc:212-222 | erasing leaves something for all draws if and only if the limit is positive or the input is no longer than the alignment |
| `Mutators.InsertCountInRange` | centipede/byte_array_mutator.cc:196-201 | 0 to 20 bytes, reaching an aligned length within the limit |
| `Mutators.InsertSafeExact` | centipede/byte_array_mutator.cc:196-206 | for one input, the buffer suffices and the subtraction does not wrap for all draws if and only if rounding it up takes at most 20 bytes or its length is aligned or at the limit; otherwise it wraps for every draw |
| `Mutators.InsertBytesSafe` | centipede/byte_array_mutator.cc:196-206 | for all inputs and draws, with any limit the setters accept, if and only if the alignment is at most 21 or the limit is 0 |
| `Mutators.InsertBytesWraps` | centipede/byte_array_mutator.cc:198-201 | for every larger alignment, the default limit included, a one-byte input makes it wrap |
| `Mutators.CrossCountInRange` | centipede/byte_array_mutator.cc:278-284 | 1 to the size of the other input, reaching an aligned length within the limit |
| `Mutators.DictionaryKeepsLimit` | centipede/byte_array_mutator.cc:266-274 | inserting from the static dictionary respects the limit if and only if no entry is longer than one byte or no input is below the limit |
| `Mutators.ByteArrayMutator.SetSizeAlignment` | centipede/byte_array_mutator.h:180-187 | accepted exactly when the limit is the default or a multiple of it |
| `Mutators.ByteArrayMutator.SetMaxLen` | centipede/byte_array_mutator.h:193-200 | accepted exactly when it is the default or a multiple of the alignment |
| `Mutators.ByteArrayMutator.AddToDictionary` | centipede/byte_array_mutator.cc:224-230 | exactly the entries of at most 128 bytes are added |
| `Mutators.ByteArrayMutator.FlipBit` | centipede/byte_array_mutator.cc:171-179 | one bit of one byte is inverted |
| `Mutators.FlipsOneBit` | centipede/byte_array_mutator.cc:171-179 | exactly the chosen bit of the byte changes |
| `Mutators.ByteArrayMutator.SwapBytes` | centipede/byte_array_mutator.cc:181-186 | a permutation that exchanges two positions |
| `Mutators.ByteArrayMutator.ChangeByte` | centipede/byte_array_mutator.cc:188-192 | at most one byte changes |
| `Mutators.ByteArrayMutator.InsertBytes` | centipede/byte_array_mutator.cc:194-210 | up to 20 bytes at one place, to an aligned length within the limit |
| `Mutators.ByteArrayMutator.EraseBytes` | centipede/byte_array_mutator.cc:212-222 | fails exactly up to one alignment, else leaves an aligned, shorter input; with a positive limit it is non-empty and within it, with limit 0 it is empty or one alignment long |
| `Mutators.ByteArrayMutator.OverwriteFromDictionary` | centipede/byte_array_mutator.cc:232-240 | one entry at one place, same length |
| `Mutators.ByteArrayMutator.OverwriteFromCmpDictionary` | centipede/byte_array_mutator.cc:242-264 | replaces an observed operand by its partner; when the dictionary ascends in the first two bytes it succeeds exactly when a searched position has a match |
| `Mutators.ByteArrayMutator.InsertFromDictionary` | centipede/byte_array_mutator.cc:266-274 | one entry is inserted at one place, whatever the limit |
| `Mutators.ByteArrayMutator.CrossOverInsert` | centipede/byte_array_mutator.cc:276-289 | nothing, or 1 to the size of the other input consecutive bytes of it, reaching an aligned length |
| `Mutators.ByteArrayMutator.CrossOverOverwrite` | centipede/byte_array_mutator.cc:291-303 | between one byte and half of the data is overwritten by consecutive bytes of the other input |
| `Mutators.ByteArrayMutator.CrossOver` | centipede/byte_array_mutator.cc:308-318 | overwrites at the limit, else overwrites or inserts; the length stays, or becomes aligned and within the limit |
| `Mutators.ByteArrayMutator.MutateSameSize` | centipede/byte_array_mutator.cc:142-151 | on success one bit is flipped, two bytes are swapped, one byte is changed, or an entry or the partner of an operand is written over the data |
| `Mutators.SameLength` | centipede/byte_array_mutator.cc:112-351 | a mutant as long as its origin is the origin, one of these five, or has a part of one of the inputs written over it |
| `Mutators.ByteArrayMutator.Mutate` | centipede/byte_array_mutator.cc:112-134 | on success one of the five same-length mutations, up to 20 bytes or an entry inserted, or bytes erased, as the limit permits; for every configuration: with a positive limit the mutant is non-empty and within the length bound, and an input over the limit shrinks to it; with limit 0 only inputs longer than the alignment change, to one alignment or nothing; without a static dictionary a new length is aligned |
| `Mutators.ByteArrayMutator.MutateMany` | centipede/byte_array_mutator.cc:325-351 | the same for every mutant and all draws, with the dictionary of the given metadata; each mutant is its origin, one mutation of it, or one crossover with one of the inputs |

## Left out

- Files, shards on disk, flags, logging, telemetry, symbolization, the watchdog and the running of targets: inputs, shards and features arrive as sequences.
- Hash functions and random number generators: hashes are opaque values, draws are arbitrary.
- Knob values: every choice a knob can make is allowed.
- `std::sort`, `std::priority_queue`, `std::unordered_map` and the standard allocators: used by their specification. Sizes and counters are unbounded except where wrap-around is written out.
- The 64-bit wrap-around of weight sums and the 32-bit wrap-around of frontier weights: weights are natural numbers.
- Floating-point rounding of corpus weights.
- The clean shutdown of the fork server when its pipes close, failing system calls, and the part of `Wait` that interprets an exit code.
- The dispositions of signals before the fork server starts are the defaults.
- Persistent mode, the non-fork-server branch of `Command`, `PeriodicAction`, `OrganizeCrashingInputs`, `FuzzTestMutator`, `ResourcePool`, `RunnerFlags`: not modelled.
- The lists of covered and uncovered functions that `Coverage` keeps for reports.
- Deeper than two-layer byte sets; races between writers of a byte set.
- RollingHashes.HashedRingBuffer.Reset: requires a buffer with at least one cell, because the source reads and writes cell 0 even for size 0.
- Mutators.ByteArrayMutator.InsertBytes: requires the input to be safe in the sense of `Mutators.InsertSafeExact`; outside that condition the source writes past its fixed buffer, which has no defined outcome to model.
- Mutators.ByteArrayMutator.MutateMany: requires all inputs to be safe in that sense, which an alignment of at most 21 implies. With the default limit, lengths must lie an alignment below the largest size_t, as those of all real arrays do.
- Mutators.ByteArrayMutator.ChangeByte: the new byte is arbitrary, so the byte may stay the same, as in the source.
- Engine.Centipede.FuzzingLoop: the mutator is not called from the loop; the batches it would produce are arbitrary non-empty inputs.
- FeatureSets.FeatureSet.MergeFeatures: requires features below the last domain, as the class comment does; its callers prune first, and pruning drops all others.
- Corpora.Corpus.UpdateWeights: the corpus sees the coverage frontier as one mark and one weight per block, an arbitrary value here; `Frontiers.CoverageFrontier.Compute` says what it holds.
