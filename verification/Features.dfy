/** Feature domains and the history view of feature sets.

    A feature is a number; its domain is the block of DOMAIN_SIZE numbers that
    holds it.  In the three comparison-score domains the low six bits of a
    feature are a score, and the features that differ only in these bits form
    one slot.  Everything below describes a feature set by the multiset of
    features merged so far, without mentioning how the set stores them. */
module Features {
  type Feature = nat

  const DOMAIN_SIZE: nat := 0x800_0000
  const NUM_DOMAINS: nat := 28
  const SIZE: nat := NUM_DOMAINS * DOMAIN_SIZE

  const PCS_DOMAIN: nat := 1
  const CMP_BEGIN: nat := 6 * DOMAIN_SIZE
  const CMP_END: nat := 9 * DOMAIN_SIZE
  const PC_PAIR_DOMAIN: nat := 11
  const NUM_SLOTS: nat := 0x60_0000

  function DomainOf(f: Feature): nat { f / 0x800_0000 }

  /** `Domain::ConvertToMe`. */
  function ConvertTo(domain: nat, number: nat): (f: Feature)
    ensures DomainOf(f) == domain
  {
    domain * 0x800_0000 + number % 0x800_0000
  }

  predicate InDomain(domain: nat, f: Feature) { DomainOf(f) == domain }

  predicate IsCmpScore(f: Feature) { CMP_BEGIN <= f < CMP_END }

  function Score(f: Feature): nat { f % 64 }

  /** The feature with its score bits cleared: the index of its frequency. */
  function Key(f: Feature): (k: Feature)
    ensures k <= f
  {
    if IsCmpScore(f) then f - f % 64 else f
  }

  lemma KeyFacts(f: Feature)
    ensures Key(Key(f)) == Key(f) && DomainOf(Key(f)) == DomainOf(f)
    ensures IsCmpScore(Key(f)) <==> IsCmpScore(f)
  {
  }

  /** `CMPScoreFeatureIndex`. */
  function SlotOf(f: Feature): (s: nat)
    requires IsCmpScore(f)
    ensures s < NUM_SLOTS && KeyOfSlot(s) == Key(f)
  {
    (f - CMP_BEGIN) / 64
  }

  function KeyOfSlot(s: nat): Feature { CMP_BEGIN + 64 * s }

  /** A domain is the interval of 2^27 numbers from 2^27 times its id, and a number
      reduced to it by ConvertTo is recovered from its offset. */
  lemma DomainIsInterval(d: nat, f: Feature, number: nat)
    ensures InDomain(d, f) <==> d * 0x800_0000 <= f < (d + 1) * 0x800_0000
    ensures InDomain(d, f) && f - d * 0x800_0000 == number ==> ConvertTo(d, number) == f
    ensures ConvertTo(d, number) == f <==> InDomain(d, f) && (number - f) % 0x800_0000 == 0
  {
  }

  /** The comparison scores occupy the domains 6, 7 and 8.  Two features share a slot
      exactly when they are equal, or are scores that agree above the low six bits. */
  lemma SlotsExact(f: Feature, g: Feature)
    ensures IsCmpScore(f) <==> DomainOf(f) in {6, 7, 8}
    ensures Key(f) == Key(g) <==> f == g || (IsCmpScore(f) && IsCmpScore(g) && f / 64 == g / 64)
    ensures IsCmpScore(f) && IsCmpScore(g) ==> (SlotOf(f) == SlotOf(g) <==> f / 64 == g / 64)
  {
  }

  predicate InRange(m: multiset<Feature>) { forall f <- m :: f < SIZE }

  predicate AllInRange(fs: seq<Feature>) { forall i :: 0 <= i < |fs| ==> fs[i] < SIZE }

  /** `f` adds nothing to `m`: some merged feature of its slot is at least as good. */
  predicate Seen(m: multiset<Feature>, f: Feature) {
    exists g :: g in m && Key(g) == Key(f) && g >= f
  }

  /** The largest t <= s such that k + t was merged, or 0. */
  function BestFrom(m: multiset<Feature>, k: Feature, s: nat): nat {
    if s == 0 || k + s in m then s else BestFrom(m, k, s - 1)
  }

  lemma {:induction false} BestFromIsMax(m: multiset<Feature>, k: Feature, s: nat)
    ensures var r := BestFrom(m, k, s);
            r <= s && (r == 0 || k + r in m) && forall g :: k + r < g <= k + s ==> g !in m
  {
    if !(s == 0 || k + s in m) {
      BestFromIsMax(m, k, s - 1);
    }
  }

  /** The best score merged for the slot with key `k`. */
  function Best(m: multiset<Feature>, k: Feature): nat {
    if IsCmpScore(k) then BestFrom(m, k, 63) else 0
  }

  function ThresholdFor(threshold: nat, f: Feature): nat {
    if InDomain(PC_PAIR_DOMAIN, f) then 1 else threshold
  }

  function Min(a: nat, b: nat): nat { if a < b then a else b }

  /** The capped number of times the best feature of slot `k` was merged. */
  function Frequency(threshold: nat, m: multiset<Feature>, k: Feature): nat {
    if Key(k) == k then Min(ThresholdFor(threshold, k), m[k + Best(m, k)]) else 0
  }

  function Keys(m: multiset<Feature>): set<Feature> { set f | f in m :: Key(f) }

  function KeysIn(m: multiset<Feature>, d: nat): set<Feature> {
    set k | k in Keys(m) && DomainOf(k) == d
  }

  // ---------------------------------------------------------------- one merge

  function Add(m: multiset<Feature>, f: Feature): multiset<Feature> { m + multiset{f} }

  lemma KeyOfBest(m: multiset<Feature>, k: Feature)
    requires Key(k) == k
    ensures Key(k + Best(m, k)) == k
    ensures Best(m, k) == 0 || k + Best(m, k) in m
    ensures forall g :: g in m && Key(g) == k ==> g <= k + Best(m, k)
  {
    BestFromIsMax(m, k, 63);
    var b := Best(m, k);
    if IsCmpScore(k) {
      assert (k + b) % 64 == b;
      forall g | g in m && Key(g) == k
        ensures g <= k + b
      {
        assert g <= k + 63;
      }
    }
  }

  /** The best feature of a slot that has any was itself merged. */
  lemma BestIsMerged(m: multiset<Feature>, k: Feature)
    requires Key(k) == k
    ensures k in Keys(m) <==> k + Best(m, k) in m
  {
    KeyOfBest(m, k);
    if k + Best(m, k) in m {
      assert Key(k + Best(m, k)) in Keys(m);
    }
    if k in Keys(m) {
      var g :| g in m && Key(g) == k;
    }
  }

  /** A frequency is positive exactly for the slots that were merged. */
  lemma FrequencyPositive(threshold: nat, m: multiset<Feature>, k: Feature)
    requires threshold >= 1 && Key(k) == k
    ensures Frequency(threshold, m, k) > 0 <==> k in Keys(m)
  {
    BestIsMerged(m, k);
  }

  /** Frequencies without slots or scores: that of a slot is positive when one of its
      features was merged, and then it counts the merges of the largest of them, at
      most once for PC pairs and up to the threshold elsewhere. */
  lemma FrequencyExact(threshold: nat, m: multiset<Feature>, f: Feature)
    requires threshold >= 1 && f in m && forall g :: g in m && Key(g) == Key(f) ==> g <= f
    ensures var n := Frequency(threshold, m, Key(f));
            if f / 0x800_0000 == 11 then n == 1 else n == if m[f] < threshold then m[f] else threshold
  {
    KeyFacts(f);
    KeyOfBest(m, Key(f));
    BestIsMerged(m, Key(f));
    assert Key(f) + Best(m, Key(f)) == f;
  }

  lemma BestAfterAdd(m: multiset<Feature>, f: Feature)
    ensures Best(Add(m, f), Key(f)) ==
            if IsCmpScore(f) && Score(f) > Best(m, Key(f)) then Score(f) else Best(m, Key(f))
  {
    if IsCmpScore(f) {
      var k := Key(f);
      KeyOfBest(m, k);
      KeyOfBest(Add(m, f), k);
      var b, b' := Best(m, k), Best(Add(m, f), k);
      assert f == k + Score(f) && f in Add(m, f);
      assert b > 0 ==> k + b in Add(m, f);
      assert b' > 0 ==> k + b' == f || k + b' in m;
    }
  }

  lemma BestOfOtherSlot(m: multiset<Feature>, f: Feature, k: Feature)
    requires Key(k) == k && k != Key(f)
    ensures Best(Add(m, f), k) == Best(m, k)
    ensures Frequencies(Add(m, f), k) == Frequencies(m, k)
  {
    KeyOfBest(m, k);
    KeyOfBest(Add(m, f), k);
    if IsCmpScore(k) {
      var b, b' := Best(m, k), Best(Add(m, f), k);
      assert k + b != f && k + b' != f;
    }
  }

  /** The uncapped frequency of slot `k`. */
  function Frequencies(m: multiset<Feature>, k: Feature): nat { m[k + Best(m, k)] }

  /** What one merge does to the frequency of the slot it lands in. */
  lemma FrequencyAfterAdd(m: multiset<Feature>, f: Feature)
    ensures var k, b := Key(f), Best(m, Key(f));
            Frequencies(Add(m, f), k) ==
            if !IsCmpScore(f) || Score(f) == b then Frequencies(m, k) + 1
            else if Score(f) > b then 1
            else Frequencies(m, k)
  {
    BestAfterAdd(m, f);
    KeyOfBest(m, Key(f));
  }

  lemma KeysAfterAdd(m: multiset<Feature>, f: Feature)
    ensures Keys(Add(m, f)) == Keys(m) + {Key(f)}
    ensures KeysIn(Add(m, f), DomainOf(f)) == KeysIn(m, DomainOf(f)) + {Key(f)}
    ensures forall d :: d != DomainOf(f) ==> KeysIn(Add(m, f), d) == KeysIn(m, d)
  {
    var m' := Add(m, f);
    assert f in m';
    forall k ensures k in Keys(m') <==> k in Keys(m) || k == Key(f) {
      if k in Keys(m) {
        var g :| g in m && Key(g) == k;
        assert g in m';
      }
    }
  }

  lemma CountsAfterAdd(m: multiset<Feature>, f: Feature)
    ensures |Keys(Add(m, f))| == |Keys(m)| + if Key(f) in Keys(m) then 0 else 1
    ensures forall d :: |KeysIn(Add(m, f), d)| ==
                        |KeysIn(m, d)| + if d == DomainOf(f) && Key(f) !in Keys(m) then 1 else 0
  {
    KeysAfterAdd(m, f);
    if Key(f) in Keys(m) {
      assert Keys(m) + {Key(f)} == Keys(m);
      assert KeysIn(m, DomainOf(f)) + {Key(f)} == KeysIn(m, DomainOf(f));
    } else {
      assert Key(f) !in KeysIn(m, DomainOf(f));
    }
  }

  // ------------------------------------------------------------------- seen

  /** What the code tests: a better score, or an equal one with a frequency. */
  lemma SeenByBest(m: multiset<Feature>, f: Feature)
    ensures Seen(m, f) <==>
            (IsCmpScore(f) && Best(m, Key(f)) > Score(f))
            || (!(IsCmpScore(f) && Best(m, Key(f)) < Score(f)) && Key(f) in Keys(m))
  {
    var k := Key(f);
    KeyOfBest(m, k);
    BestIsMerged(m, k);
    var top := k + Best(m, k);
    if IsCmpScore(f) {
      assert f == k + Score(f);
    }
    if top in m && top >= f {
      assert Key(top) == Key(f);
    }
  }

  lemma SeenMonotone(m: multiset<Feature>, m': multiset<Feature>, f: Feature)
    requires m <= m' && Seen(m, f)
    ensures Seen(m', f)
  {
    var g :| g in m && Key(g) == Key(f) && g >= f;
    assert g in m';
  }

  lemma MergedIsSeen(m: multiset<Feature>, f: Feature)
    requires f in m
    ensures Seen(m, f)
  {
  }

  lemma SeenTransitive(m: multiset<Feature>, m': multiset<Feature>, f: Feature)
    requires Seen(m, f) && forall g <- m :: Seen(m', g)
    ensures Seen(m', f)
  {
    var g :| g in m && Key(g) == Key(f) && g >= f;
    var h :| h in m' && Key(h) == Key(g) && h >= g;
  }

  // -------------------------------------------------------- order independence

  /** Two feature sets that have seen the same features hold the same slots and
      the same best scores. */
  lemma {:induction false} SameSeenSameBest(m: multiset<Feature>, m': multiset<Feature>)
    requires forall f: Feature :: Seen(m, f) <==> Seen(m', f)
    ensures Keys(m) == Keys(m')
    ensures forall k: Feature :: Key(k) == k ==> Best(m, k) == Best(m', k)
  {
    forall k: Feature | Key(k) == k
      ensures k in Keys(m) <==> k in Keys(m')
      ensures Best(m, k) == Best(m', k)
    {
      assert k in Keys(m) <==> Seen(m, k);
      assert k in Keys(m') <==> Seen(m', k);
      KeyOfBest(m, k);
      KeyOfBest(m', k);
      BestIsMerged(m, k);
      BestIsMerged(m', k);
      if k in Keys(m) {
        assert Seen(m, k + Best(m, k)) && Seen(m', k + Best(m', k));
      }
    }
    forall k ensures k in Keys(m) <==> k in Keys(m') {
      if Key(k) != k {
        assert k !in Keys(m) && k !in Keys(m') by {
          forall f: Feature ensures Key(Key(f)) == Key(f) {}
        }
      }
    }
  }
}
