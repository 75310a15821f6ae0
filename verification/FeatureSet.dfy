/** The feature set: capped frequencies, best comparison scores and counters,
    kept in arrays that are updated in place.  The ghost field `merged` is the
    multiset of all features merged so far; Valid() says that the whole state is
    a closed form of it, so the order of the merges leaves no trace. */
module FeatureSets {
  import opened Bytes
  import opened Features

  /** A record feature is kept when its domain is not discarded, it was merged
      fewer times than the threshold, and no better score of its slot was merged. */
  predicate Keep(threshold: nat, discarded: set<nat>, m: multiset<Feature>, f: Feature) {
    && !Discarded(discarded, f)
    && m[f] < ThresholdFor(threshold, f)
    && forall g :: g in m && Key(g) == Key(f) ==> g <= f
  }

  predicate Discarded(discarded: set<nat>, f: Feature) {
    DomainOf(f) >= NUM_DOMAINS || DomainOf(f) in discarded
  }

  /** The features that survive pruning, in their order. */
  function Kept(threshold: nat, discarded: set<nat>, m: multiset<Feature>, fs: seq<Feature>): seq<Feature> {
    if fs == [] then [] else
      var rest := Kept(threshold, discarded, m, fs[..|fs| - 1]);
      if Keep(threshold, discarded, m, fs[|fs| - 1]) then rest + [fs[|fs| - 1]] else rest
  }

  /** How many of the surviving features are new to the set. */
  function Fresh(discarded: set<nat>, m: multiset<Feature>, fs: seq<Feature>): nat {
    if fs == [] then 0 else
      var f := fs[|fs| - 1];
      Fresh(discarded, m, fs[..|fs| - 1]) + if !Discarded(discarded, f) && !Seen(m, f) then 1 else 0
  }

  function Undiscarded(discarded: set<nat>, fs: seq<Feature>): seq<Feature> {
    if fs == [] then [] else
      var rest := Undiscarded(discarded, fs[..|fs| - 1]);
      if Discarded(discarded, fs[|fs| - 1]) then rest else rest + [fs[|fs| - 1]]
  }

  /** Rarity weight of one feature: rare domains and rare features weigh more. */
  function RarityOf(threshold: nat, m: multiset<Feature>, f: Feature): nat
    requires threshold >= 1 && Key(f) in Keys(m)
  {
    FrequencyPositive(threshold, m, Key(f));
    assert Key(f) in KeysIn(m, DomainOf(f));
    RarityTerm(|Keys(m)|, |KeysIn(m, DomainOf(f))|, Frequency(threshold, m, Key(f)))
  }

  function RarityTerm(features: nat, inDomain: nat, frequency: nat): nat
    requires inDomain > 0 && frequency > 0
  {
    Product(features / inDomain, 256 / frequency)
  }

  function Product(a: nat, b: nat): nat { a * b }

  function Rarity(threshold: nat, m: multiset<Feature>, fs: seq<Feature>): (w: nat)
    requires threshold >= 1 && forall f <- fs :: Key(f) in Keys(m)
  {
    if fs == [] then 0 else
      Rarity(threshold, m, fs[..|fs| - 1]) + RarityOf(threshold, m, fs[|fs| - 1])
  }

  class FeatureSet {
    const threshold: U8
    const discarded: set<nat>
    const frequencies: array<U8>
    const scores: array<U8>
    const perDomain: array<nat>
    var numFeatures: nat
    ghost var merged: multiset<Feature>

    function Repr(): set<object> { {this, frequencies, scores, perDomain} }

    ghost predicate Valid()
      reads Repr()
    {
      && threshold >= 1
      && frequencies != scores
      && frequencies.Length == SIZE && scores.Length == NUM_SLOTS && perDomain.Length == NUM_DOMAINS
      && InRange(merged)
      && Represents(merged)
    }

    /** Every array entry and every counter is a closed form of the history. */
    ghost predicate Represents(m: multiset<Feature>)
      requires frequencies.Length == SIZE && scores.Length == NUM_SLOTS && perDomain.Length == NUM_DOMAINS
      reads Repr()
    {
      && (forall k :: 0 <= k < SIZE ==> frequencies[k] == Frequency(threshold, m, k))
      && (forall s :: 0 <= s < NUM_SLOTS ==> scores[s] == Best(m, KeyOfSlot(s)))
      && numFeatures == |Keys(m)|
      && (forall d :: 0 <= d < NUM_DOMAINS ==> perDomain[d] == |KeysIn(m, d)|)
    }

    constructor (threshold: U8, discarded: set<nat>)
      requires threshold >= 1
      ensures Valid() && fresh(Repr())
      ensures merged == multiset{} && this.threshold == threshold && this.discarded == discarded
    {
      this.threshold, this.discarded := threshold, discarded;
      frequencies := new U8[SIZE](_ => 0);
      scores := new U8[NUM_SLOTS](_ => 0);
      perDomain := new nat[NUM_DOMAINS](_ => 0);
      numFeatures := 0;
      merged := multiset{};
      new;
      NothingMerged();
    }

    function FrequencyThreshold(f: Feature): U8 {
      if InDomain(PC_PAIR_DOMAIN, f) then 1 else threshold
    }

    predicate ShouldDiscardFeature(f: Feature) {
      if DomainOf(f) >= NUM_DOMAINS then true else DomainOf(f) in discarded
    }

    method HasUnseenFeatures(features: seq<Feature>) returns (unseen: bool)
      requires Valid() && AllInRange(features)
      ensures unseen <==> exists f :: f in features && !Seen(merged, f)
    {
      for i := 0 to |features|
        invariant forall j :: 0 <= j < i ==> Seen(merged, features[j])
      {
        var feature := features[i];
        KeyFacts(feature);
        SeenByBest(merged, feature);
        FrequencyPositive(threshold, merged, Key(feature));
        if IsCmpScore(feature) {
          var score := feature % 64;
          var seenScore := scores[SlotOf(feature)];
          if seenScore < score {
            return true;
          } else if seenScore > score {
            continue;
          }
          feature := feature - feature % 64;
        }
        if frequencies[feature] == 0 {
          return true;
        }
      }
      return false;
    }

    /** Compacts `features` in place and counts the survivors that are new. */
    method PruneFeaturesAndCountUnseen(features: seq<Feature>) returns (kept: seq<Feature>, unseen: nat)
      requires Valid()
      ensures kept == Kept(threshold, discarded, merged, features)
      ensures unseen == Fresh(discarded, merged, features)
    {
      kept := features;
      unseen := 0;
      var numKept := 0;
      for i := 0 to |features|
        invariant numKept <= i && |kept| == |features|
        invariant kept[i..] == features[i..]
        invariant kept[..numKept] == Kept(threshold, discarded, merged, features[..i])
        invariant unseen == Fresh(discarded, merged, features[..i])
      {
        KeptStep(threshold, discarded, merged, features, i);
        assert kept[i] == kept[i..][0] == features[i];
        var keep, isUnseen := Classify(kept[i]);
        if isUnseen {
          unseen := unseen + 1;
        }
        if keep {
          Compact(kept, features, numKept, i);
          kept := kept[numKept := kept[i]];
          numKept := numKept + 1;
        }
        assert kept[i..][1..] == kept[i + 1..] && features[i..][1..] == features[i + 1..];
      }
      assert features[..|features|] == features;
      kept := kept[..numKept];
    }

    /** The tests of the pruning loop. */
    method Classify(f: Feature) returns (keep: bool, unseen: bool)
      requires Valid()
      ensures keep == Keep(threshold, discarded, merged, f)
      ensures unseen == (!Discarded(discarded, f) && !Seen(merged, f))
    {
      KeyFacts(f);
      KeepByBest(threshold, discarded, merged, f);
      if ShouldDiscardFeature(f) {
        return false, false;
      }
      var feature := f;
      unseen := false;
      if IsCmpScore(f) {
        var score := f % 64;
        var seenScore := scores[SlotOf(f)];
        if seenScore < score {
          unseen := true;
        } else if seenScore > score {
          return false, false;
        }
        feature := f - f % 64;
      }
      var freq := frequencies[feature];
      unseen := unseen || freq == 0;
      keep := unseen || freq < FrequencyThreshold(feature);
    }

    method PruneDiscardedDomains(features: seq<Feature>) returns (kept: seq<Feature>)
      ensures kept == Undiscarded(discarded, features)
    {
      kept := features;
      var numKept := 0;
      for i := 0 to |features|
        invariant numKept <= i && |kept| == |features|
        invariant kept[i..] == features[i..]
        invariant kept[..numKept] == Undiscarded(discarded, features[..i])
      {
        assert features[..i + 1][..i] == features[..i];
        if ShouldDiscardFeature(kept[i]) {
          continue;
        }
        kept := kept[numKept := kept[i]];
        numKept := numKept + 1;
      }
      assert features[..|features|] == features;
      kept := kept[..numKept];
    }

    method MergeFeatures(features: seq<Feature>)
      requires Valid() && AllInRange(features)
      modifies Repr()
      ensures Valid() && merged == old(merged) + multiset(features)
    {
      for i := 0 to |features|
        invariant Valid() && merged == old(merged) + multiset(features[..i])
      {
        assert features[..i + 1] == features[..i] + [features[i]];
        MergeFeature(features[i]);
      }
      assert features[..|features|] == features;
    }

    /** The body of the merge loop. */
    method MergeFeature(f: Feature)
      requires Valid() && f < SIZE
      modifies Repr()
      ensures Valid() && merged == Add(old(merged), f)
    {
      KeyFacts(f);
      MergeEffect(threshold, merged, f);
      UpdateSlot(f);
      merged := Add(merged, f);
    }

    /** The best score stored for the slot of a feature. */
    function StoredBest(f: Feature): nat
      requires scores.Length == NUM_SLOTS
      reads scores
    {
      if IsCmpScore(f) then scores[SlotOf(f)] else 0
    }

    /** What a merge does to the arrays and counters. */
    method UpdateSlot(f: Feature)
      requires f < SIZE == frequencies.Length && scores.Length == NUM_SLOTS && perDomain.Length == NUM_DOMAINS
      requires frequencies != scores && threshold >= 1 && Key(f) < SIZE && DomainOf(Key(f)) == DomainOf(f)
      modifies this`numFeatures, frequencies, scores, perDomain
      ensures var k, best := Key(f), old(StoredBest(f));
              var isNew := if old(frequencies[k]) == 0 && !(IsCmpScore(f) && Score(f) < best) then 1 else 0;
              && frequencies[k] == NextFrequency(ThresholdFor(threshold, k), IsCmpScore(f), Score(f), best, old(frequencies[k]))
              && numFeatures == old(numFeatures) + isNew
              && (forall d :: 0 <= d < NUM_DOMAINS ==>
                    perDomain[d] == old(perDomain[d]) + if d == DomainOf(f) then isNew else 0)
              && (forall s :: 0 <= s < NUM_SLOTS ==>
                    scores[s] == if IsCmpScore(f) && s == SlotOf(f) && Score(f) > best then Score(f) else old(scores[s]))
      ensures forall j :: 0 <= j < SIZE && j != Key(f) ==> frequencies[j] == old(frequencies[j])
    {
      var unseen, outdone := false, false;
      if IsCmpScore(f) {
        unseen, outdone := RaiseScore(f);
      }
      if !outdone {
        CountFeature(if IsCmpScore(f) then f - f % 64 else f, unseen);
      }
    }

    method RaiseScore(f: Feature) returns (unseen: bool, outdone: bool)
      requires IsCmpScore(f) && scores.Length == NUM_SLOTS
      modifies scores
      ensures unseen == (old(scores[SlotOf(f)]) < Score(f)) && outdone == (old(scores[SlotOf(f)]) > Score(f))
      ensures forall s :: 0 <= s < NUM_SLOTS ==>
                scores[s] == if unseen && s == SlotOf(f) then Score(f) else old(scores[s])
    {
      unseen, outdone := false, false;
      var score := f % 64;
      if scores[SlotOf(f)] < score {
        scores[SlotOf(f)] := score;
        unseen := true;
      } else if scores[SlotOf(f)] > score {
        outdone := true;
      }
    }

    method CountFeature(k: Feature, unseen: bool)
      requires k < SIZE == frequencies.Length && perDomain.Length == NUM_DOMAINS && threshold >= 1
      modifies this`numFeatures, frequencies, perDomain
      ensures var isNew, was := if old(frequencies[k]) == 0 then 1 else 0, old(frequencies[k]);
              && numFeatures == old(numFeatures) + isNew
              && (forall d :: 0 <= d < NUM_DOMAINS ==>
                    perDomain[d] == old(perDomain[d]) + if d == DomainOf(k) then isNew else 0)
              && frequencies[k] == if unseen then 1 else if was < ThresholdFor(threshold, k) then was + 1 else was
      ensures forall j :: 0 <= j < SIZE && j != k ==> frequencies[j] == old(frequencies[j])
    {
      if frequencies[k] == 0 {
        numFeatures := numFeatures + 1;
        perDomain[DomainOf(k)] := perDomain[DomainOf(k)] + 1;
      } else if unseen {
        frequencies[k] := 0;
      }
      if frequencies[k] < FrequencyThreshold(k) {
        frequencies[k] := frequencies[k] + 1;
      }
    }

    /** A feature outdone by a better score counts as absent. */
    method GetFrequency(f: Feature) returns (r: nat)
      requires Valid() && f < SIZE
      ensures r == if exists g :: g in merged && Key(g) == Key(f) && g > f then 0
                   else Min(ThresholdFor(threshold, f), merged[f])
    {
      KeyFacts(f);
      KeyOfBest(merged, Key(f));
      BestIsMerged(merged, Key(f));
      var feature := f;
      if IsCmpScore(f) {
        assert f == Key(f) + Score(f);
        if feature % 64 != scores[SlotOf(f)] {
          return 0;
        }
        feature := feature - feature % 64;
      }
      return frequencies[feature];
    }

    method ComputeRarityWeight(features: seq<Feature>) returns (weight: nat)
      requires Valid() && forall f <- features :: Key(f) in Keys(merged)
      ensures weight == Rarity(threshold, merged, features)
    {
      weight := 0;
      for i := 0 to |features|
        invariant weight == Rarity(threshold, merged, features[..i])
      {
        assert features[..i + 1][..i] == features[..i];
        assert features[i] in features;
        var term := RarityOfFeature(features[i]);
        weight := weight + term;
      }
      assert features[..|features|] == features;
    }

    /** One term of the sum; the two assertions are the checks of the loop. */
    method RarityOfFeature(f: Feature) returns (term: nat)
      requires Valid() && Key(f) in Keys(merged)
      ensures term == RarityOf(threshold, merged, f)
    {
      KeyFacts(f);
      FrequencyPositive(threshold, merged, Key(f));
      assert Key(f) in KeysIn(merged, DomainOf(f));
      KeysInRange(merged, f);
      var featuresInDomain := perDomain[DomainOf(f)];
      assert featuresInDomain > 0;
      var key := if IsCmpScore(f) then f - f % 64 else f;
      assert frequencies[key] > 0;
      term := RarityTerm(numFeatures, featuresInDomain, frequencies[key]);
    }
  }

  // ------------------------------------------------------------------ lemmas

  lemma KeptStep(threshold: nat, discarded: set<nat>, m: multiset<Feature>, fs: seq<Feature>, i: nat)
    requires i < |fs|
    ensures Kept(threshold, discarded, m, fs[..i + 1]) ==
            Kept(threshold, discarded, m, fs[..i]) + if Keep(threshold, discarded, m, fs[i]) then [fs[i]] else []
    ensures Fresh(discarded, m, fs[..i + 1]) ==
            Fresh(discarded, m, fs[..i]) + if !Discarded(discarded, fs[i]) && !Seen(m, fs[i]) then 1 else 0
  {
    assert fs[..i + 1][..i] == fs[..i];
  }

  /** Writing the i-th element to the end of the kept ones. */
  lemma Compact(kept: seq<Feature>, fs: seq<Feature>, n: nat, i: nat)
    requires n <= i < |fs| == |kept| && kept[i..] == fs[i..]
    ensures var next := kept[n := kept[i]];
            next[..n + 1] == kept[..n] + [kept[i]] && next[i..] == fs[i..]
  {
    var next := kept[n := kept[i]];
    assert next[..n] == kept[..n];
    forall k | i <= k < |fs| ensures next[k] == fs[k] {
      assert kept[k] == kept[i..][k - i] == fs[i..][k - i];
    }
  }

  lemma KeysInRange(m: multiset<Feature>, f: Feature)
    requires InRange(m) && Key(f) in Keys(m)
    ensures f < SIZE && DomainOf(f) < NUM_DOMAINS
  {
    var g :| g in m && Key(g) == Key(f);
    assert DomainOf(f) == DomainOf(g);
  }

  lemma NothingMerged()
    ensures forall k: Feature :: Key(k) == k ==> Best(multiset{}, k) == 0
    ensures forall s: nat :: s < NUM_SLOTS ==> Best(multiset{}, KeyOfSlot(s)) == 0
  {
    forall k: Feature | Key(k) == k
      ensures Best(multiset{}, k) == 0
    {
      KeyOfBest(multiset{}, k);
    }
  }

  /** The frequency of a slot after a merge, from the values before it. */
  function NextFrequency(cap: nat, isCmp: bool, score: nat, best: nat, frequency: nat): nat {
    if isCmp && score < best then frequency
    else if isCmp && score > best then 1
    else if frequency < cap then frequency + 1
    else frequency
  }

  lemma MergeEffectOnSlot(threshold: nat, m: multiset<Feature>, f: Feature)
    requires threshold >= 1
    ensures var k := Key(f);
            && Frequency(threshold, Add(m, f), k) ==
               NextFrequency(ThresholdFor(threshold, k), IsCmpScore(f), Score(f), Best(m, k), Frequency(threshold, m, k))
            && (Frequency(threshold, m, k) == 0 ==> !(IsCmpScore(f) && Score(f) < Best(m, k)))
  {
    var k, cap := Key(f), ThresholdFor(threshold, Key(f));
    KeyFacts(f);
    FrequencyAfterAdd(m, f);
    KeyOfBest(m, k);
    FrequencyIsCapped(threshold, m, k);
    FrequencyIsCapped(threshold, Add(m, f), k);
    CapStep(cap, IsCmpScore(f), Score(f), Best(m, k), Frequencies(m, k));
  }

  lemma FrequencyIsCapped(threshold: nat, m: multiset<Feature>, k: Feature)
    requires Key(k) == k
    ensures Frequency(threshold, m, k) == Min(ThresholdFor(threshold, k), Frequencies(m, k))
  {
  }

  /** Capping commutes with counting. */
  lemma CapStep(cap: nat, isCmp: bool, score: nat, best: nat, count: nat)
    requires cap >= 1
    ensures NextFrequency(cap, isCmp, score, best, Min(cap, count)) ==
            Min(cap, if !isCmp || score == best then count + 1 else if score > best then 1 else count)
  {
  }

  /** What one merge changes, and that it changes nothing else. */
  lemma MergeEffect(threshold: nat, m: multiset<Feature>, f: Feature)
    requires threshold >= 1
    ensures var k, m' := Key(f), Add(m, f);
            && Frequency(threshold, m', k) ==
               NextFrequency(ThresholdFor(threshold, k), IsCmpScore(f), Score(f), Best(m, k), Frequency(threshold, m, k))
            && (Frequency(threshold, m, k) == 0 ==> !(IsCmpScore(f) && Score(f) < Best(m, k)))
            && |Keys(m')| == |Keys(m)| + if Frequency(threshold, m, k) == 0 then 1 else 0
    ensures forall k: Feature :: k != Key(f) ==> Frequency(threshold, Add(m, f), k) == Frequency(threshold, m, k)
    ensures forall s: nat :: s < NUM_SLOTS ==>
              Best(Add(m, f), KeyOfSlot(s)) ==
              if IsCmpScore(f) && s == SlotOf(f) && Score(f) > Best(m, Key(f)) then Score(f) else Best(m, KeyOfSlot(s))
    ensures forall d: nat :: |KeysIn(Add(m, f), d)| ==
              |KeysIn(m, d)| + if d == DomainOf(f) && Frequency(threshold, m, Key(f)) == 0 then 1 else 0
  {
    MergeEffectOnSlot(threshold, m, f);
    forall k: Feature | k != Key(f)
      ensures Frequency(threshold, Add(m, f), k) == Frequency(threshold, m, k)
    {
      if Key(k) == k {
        BestOfOtherSlot(m, f, k);
      }
    }
    BestAfterAdd(m, f);
    forall s: nat | s < NUM_SLOTS && !(IsCmpScore(f) && s == SlotOf(f))
      ensures Best(Add(m, f), KeyOfSlot(s)) == Best(m, KeyOfSlot(s))
    {
      BestOfOtherSlot(m, f, KeyOfSlot(s));
    }
    FrequencyPositive(threshold, m, Key(f));
    CountsAfterAdd(m, f);
  }

  /** Pruning treats every feature on its own, and so do counting and discarding. */
  lemma {:induction false} KeptConcat(threshold: nat, discarded: set<nat>, m: multiset<Feature>, a: seq<Feature>, b: seq<Feature>)
    ensures Kept(threshold, discarded, m, a + b) == Kept(threshold, discarded, m, a) + Kept(threshold, discarded, m, b)
  {
    if b == [] {
      assert a + b == a;
    } else {
      var n := |b| - 1;
      KeptConcat(threshold, discarded, m, a, b[..n]);
      KeptOfLast(threshold, discarded, m, a + b);
      KeptOfLast(threshold, discarded, m, b);
      assert (a + b)[..|a + b| - 1] == a + b[..n];
    }
  }

  lemma KeptOfLast(threshold: nat, discarded: set<nat>, m: multiset<Feature>, fs: seq<Feature>)
    requires fs != []
    ensures var f := fs[|fs| - 1];
            Kept(threshold, discarded, m, fs) ==
            Kept(threshold, discarded, m, fs[..|fs| - 1]) + if Keep(threshold, discarded, m, f) then [f] else []
  {
  }

  lemma {:induction false} FreshConcat(discarded: set<nat>, m: multiset<Feature>, a: seq<Feature>, b: seq<Feature>)
    ensures Fresh(discarded, m, a + b) == Fresh(discarded, m, a) + Fresh(discarded, m, b)
  {
    if b == [] {
      assert a + b == a;
    } else {
      FreshConcat(discarded, m, a, b[..|b| - 1]);
      assert (a + b)[..|a + b| - 1] == a + b[..|b| - 1];
    }
  }

  lemma {:induction false} UndiscardedConcat(discarded: set<nat>, a: seq<Feature>, b: seq<Feature>)
    ensures Undiscarded(discarded, a + b) == Undiscarded(discarded, a) + Undiscarded(discarded, b)
  {
    if b == [] {
      assert a + b == a;
    } else {
      UndiscardedConcat(discarded, a, b[..|b| - 1]);
      assert (a + b)[..|a + b| - 1] == a + b[..|b| - 1];
    }
  }

  /** One feature: discarded when its domain is, or when it lies in no domain; kept when
      in addition no larger feature of its slot was merged and it was itself merged
      less often than the threshold, a PC pair never; new when no feature of its
      slot that is as large was merged. */
  lemma KeptOfOne(threshold: nat, discarded: set<nat>, m: multiset<Feature>, f: Feature)
    ensures var usable := f < 28 * 0x800_0000 && f / 0x800_0000 !in discarded;
            && Undiscarded(discarded, [f]) == (if usable then [f] else [])
            && Kept(threshold, discarded, m, [f]) ==
               (if usable && !Outdone(m, f) && m[f] < (if f / 0x800_0000 == 11 then 1 else threshold) then [f] else [])
            && Fresh(discarded, m, [f]) == (if usable && f !in m && !Outdone(m, f) then 1 else 0)
  {
    assert [f][..0] == [];
    assert Seen(m, f) <==> f in m || Outdone(m, f) by {
      if Seen(m, f) {
        var g :| g in m && Key(g) == Key(f) && g >= f;
      }
    }
  }

  /** A larger feature of its slot was merged: a better score of the same comparison. */
  predicate Outdone(m: multiset<Feature>, f: Feature) {
    exists g :: g in m && Key(g) == Key(f) && g > f
  }

  lemma OutdoneExact(m: multiset<Feature>, f: Feature)
    ensures Outdone(m, f) <==>
            exists g :: g in m && f < g && g / 64 == f / 64 && 6 * 0x800_0000 <= f < 9 * 0x800_0000
  {
    if Outdone(m, f) {
      var g :| g in m && Key(g) == Key(f) && g > f;
      SlotsExact(f, g);
    }
    if g :| g in m && f < g && g / 64 == f / 64 && 6 * 0x800_0000 <= f < 9 * 0x800_0000 {
      SlotsExact(f, g);
      assert IsCmpScore(g);
    }
  }

  /** The tests of the pruning loop decide Keep and Seen. */
  lemma KeepByBest(threshold: nat, discarded: set<nat>, m: multiset<Feature>, f: Feature)
    requires threshold >= 1
    ensures Seen(m, f) <==>
            (IsCmpScore(f) && Best(m, Key(f)) > Score(f))
            || (!(IsCmpScore(f) && Best(m, Key(f)) < Score(f)) && Frequency(threshold, m, Key(f)) > 0)
    ensures Keep(threshold, discarded, m, f) <==>
            && !Discarded(discarded, f)
            && !(IsCmpScore(f) && Best(m, Key(f)) > Score(f))
            && (!Seen(m, f) || Frequency(threshold, m, Key(f)) < ThresholdFor(threshold, Key(f)))
  {
    var k := Key(f);
    SeenByBest(m, f);
    FrequencyPositive(threshold, m, k);
    KeyOfBest(m, k);
    BestIsMerged(m, k);
    if IsCmpScore(f) {
      assert f == k + Score(f);
    }
    if !Seen(m, f) {
      assert f !in m;
    }
  }

  /** The counters count the non-zero frequencies. */
  lemma CountersCountFrequencies(fs: FeatureSet, d: nat)
    requires fs.Valid() && d < NUM_DOMAINS
    ensures fs.numFeatures == |set k | 0 <= k < SIZE && fs.frequencies[k] > 0|
    ensures fs.perDomain[d] == |set k | 0 <= k < SIZE && fs.frequencies[k] > 0 && DomainOf(k) == d|
  {
    NonZeroAreKeys(fs);
    assert (set k | 0 <= k < SIZE && fs.frequencies[k] > 0 && DomainOf(k) == d) == KeysIn(fs.merged, d);
  }

  lemma NonZeroAreKeys(fs: FeatureSet)
    requires fs.Valid()
    ensures (set k | 0 <= k < SIZE && fs.frequencies[k] > 0) == Keys(fs.merged)
    ensures forall k | 0 <= k < SIZE :: fs.frequencies[k] > 0 <==> k in Keys(fs.merged)
  {
    forall k: Feature ensures k in Keys(fs.merged) <==> k < SIZE && Frequency(fs.threshold, fs.merged, k) > 0 {
      KeyHasFrequency(fs.threshold, fs.merged, k);
    }
  }

  lemma KeyHasFrequency(threshold: nat, m: multiset<Feature>, k: Feature)
    requires threshold >= 1 && InRange(m)
    ensures k in Keys(m) <==> k < SIZE && Frequency(threshold, m, k) > 0
  {
    if k in Keys(m) {
      var f :| f in m && Key(f) == k;
      KeyFacts(f);
      FrequencyPositive(threshold, m, k);
    } else if Key(k) == k {
      FrequencyPositive(threshold, m, k);
    }
  }

  /** Feature sets with the same history are equal, whatever the merge order. */
  lemma SameHistorySameState(a: FeatureSet, b: FeatureSet)
    requires a.Valid() && b.Valid() && a.threshold == b.threshold && a.merged == b.merged
    ensures a.frequencies[..] == b.frequencies[..] && a.scores[..] == b.scores[..]
    ensures a.perDomain[..] == b.perDomain[..] && a.numFeatures == b.numFeatures
  {
    assert forall k :: 0 <= k < SIZE ==> a.frequencies[k] == b.frequencies[k];
  }

  lemma {:induction false} KeptMembers(threshold: nat, discarded: set<nat>, m: multiset<Feature>, fs: seq<Feature>)
    ensures forall f :: f in Kept(threshold, discarded, m, fs) <==> f in fs && Keep(threshold, discarded, m, f)
  {
    if fs != [] {
      KeptMembers(threshold, discarded, m, fs[..|fs| - 1]);
      assert fs == fs[..|fs| - 1] + [fs[|fs| - 1]];
    }
  }

  lemma {:induction false} UndiscardedMembers(discarded: set<nat>, fs: seq<Feature>)
    ensures forall f :: f in Undiscarded(discarded, fs) <==> f in fs && !Discarded(discarded, f)
    ensures AllInRange(Undiscarded(discarded, fs))
  {
    if fs != [] {
      UndiscardedMembers(discarded, fs[..|fs| - 1]);
      assert fs == fs[..|fs| - 1] + [fs[|fs| - 1]];
    }
  }

  /** Pruning reports new features exactly when some undiscarded feature is
      unseen, and then keeps at least one feature. */
  lemma {:induction false} FreshFeatures(threshold: nat, discarded: set<nat>, m: multiset<Feature>, fs: seq<Feature>)
    requires threshold >= 1
    ensures Fresh(discarded, m, fs) > 0 <==> exists f :: f in fs && !Discarded(discarded, f) && !Seen(m, f)
    ensures Fresh(discarded, m, fs) <= |Kept(threshold, discarded, m, fs)|
  {
    if fs != [] {
      var f := fs[|fs| - 1];
      FreshFeatures(threshold, discarded, m, fs[..|fs| - 1]);
      assert fs == fs[..|fs| - 1] + [f];
      KeepByBest(threshold, discarded, m, f);
      SeenByBest(m, f);
    }
  }

  /** The rarity of one merged feature is the number of all slots by the number of those
      in its domain, times 256 by its frequency, both quotients rounded down. */
  lemma RarityOfOne(threshold: nat, m: multiset<Feature>, f: Feature, a: nat, b: nat)
    requires threshold >= 1 && Key(f) in Keys(m)
    requires IsQuotient(|Keys(m)|, |KeysIn(m, DomainOf(f))|, a)
    requires IsQuotient(256, Frequency(threshold, m, Key(f)), b)
    ensures Rarity(threshold, m, [f]) == a * b
  {
    RarityTermIs(|Keys(m)|, |KeysIn(m, DomainOf(f))|, Frequency(threshold, m, Key(f)), a, b);
    RarityUnit(threshold, m, f);
  }

  lemma RarityUnit(threshold: nat, m: multiset<Feature>, f: Feature)
    requires threshold >= 1 && Key(f) in Keys(m)
    ensures Rarity(threshold, m, [f]) == RarityOf(threshold, m, f)
  {
    assert [f][..0] == [];
  }

  lemma RarityTermIs(features: nat, inDomain: nat, frequency: nat, a: nat, b: nat)
    requires IsQuotient(features, inDomain, a) && IsQuotient(256, frequency, b)
    ensures RarityTerm(features, inDomain, frequency) == a * b
  {
    QuotientIs(features, inDomain, a);
    QuotientIs(256, frequency, b);
  }

  /** q times d fits into n, and one more does not. */
  predicate IsQuotient(n: nat, d: nat, q: nat) { d > 0 && q * d <= n < q * d + d }

  lemma QuotientIs(n: nat, d: nat, q: nat)
    requires IsQuotient(n, d, q)
    ensures n / d == q
  {
    var e := n / d - q;
    assert n / d * d <= n < n / d * d + d;
    assert e * d == n / d * d - q * d;
    MultipleSize(e, d);
  }

  lemma {:induction false} RarityConcat(threshold: nat, m: multiset<Feature>, a: seq<Feature>, b: seq<Feature>)
    requires threshold >= 1 && forall f <- a + b :: Key(f) in Keys(m)
    ensures (forall f <- a :: f in a + b) && forall f <- b :: f in a + b
    ensures Rarity(threshold, m, a + b) == Rarity(threshold, m, a) + Rarity(threshold, m, b)
  {
    assert (forall f <- a :: f in a + b) && forall f <- b :: f in a + b;
    if b == [] {
      assert a + b == a;
    } else {
      var n := |b| - 1;
      assert (a + b)[..|a + b| - 1] == a + b[..n];
      RarityConcat(threshold, m, a, b[..n]);
    }
  }

  /** Every record with features has a positive rarity weight. */
  lemma {:induction false} RarityPositive(threshold: nat, m: multiset<Feature>, fs: seq<Feature>)
    requires 1 <= threshold < 0x100 && forall f <- fs :: Key(f) in Keys(m)
    ensures fs != [] ==> Rarity(threshold, m, fs) > 0
  {
    if fs != [] {
      RarityOfPositive(threshold, m, fs[|fs| - 1]);
    }
  }

  lemma RarityOfPositive(threshold: nat, m: multiset<Feature>, f: Feature)
    requires 1 <= threshold < 0x100 && Key(f) in Keys(m)
    ensures RarityOf(threshold, m, f) > 0
  {
    var inDomain, all := KeysIn(m, DomainOf(f)), Keys(m);
    KeyFacts(f);
    FrequencyPositive(threshold, m, Key(f));
    assert Key(f) in inDomain;
    SubsetSize(inDomain, all);
    RarityTermPositive(|all|, |inDomain|, Frequency(threshold, m, Key(f)));
  }

  lemma RarityTermPositive(features: nat, inDomain: nat, frequency: nat)
    requires 0 < inDomain <= features && 0 < frequency <= 256
    ensures RarityTerm(features, inDomain, frequency) > 0
  {
    assert features / inDomain >= 1;
    assert 256 / frequency >= 1;
  }

  lemma SubsetSize<T>(a: set<T>, b: set<T>)
    requires a <= b
    ensures |a| <= |b|
  {
    assert b == a + (b - a);
  }
}
