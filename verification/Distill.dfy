/** Distillation: many writers push corpus elements through one shared filter.

    FilterElt runs under the filter's mutex, so a run of any number of threads is
    some order of atomic calls.  `Run` gives the filter's state after an order of
    calls; the theorems below hold for every order. */
module Distill {
  import opened Bytes
  import opened Features
  import opened FeatureSets
  import opened Wrappers

  /** An element: the hash of its input, and the features of that input. */
  datatype Elt = Elt(hash: nat, features: seq<Feature>)

  datatype State = State(seen: set<nat>, merged: multiset<Feature>, written: seq<Elt>)

  predicate AllSeen(m: multiset<Feature>, fs: seq<Feature>) { forall f <- fs :: Seen(m, f) }

  function Trim(discarded: set<nat>, e: Elt): Elt { e.(features := Undiscarded(discarded, e.features)) }

  /** One call: drop known hashes, then elements without an unseen feature. */
  function Step(discarded: set<nat>, s: State, e: Elt): State {
    if e.hash in s.seen then s
    else
      var trimmed := Trim(discarded, e);
      if AllSeen(s.merged, trimmed.features) then s.(seen := s.seen + {e.hash})
      else State(s.seen + {e.hash}, s.merged + multiset(trimmed.features), s.written + [trimmed])
  }

  function Run(discarded: set<nat>, order: seq<Elt>): State {
    if order == [] then State({}, multiset{}, [])
    else Step(discarded, Run(discarded, order[..|order| - 1]), order[|order| - 1])
  }

  lemma RunSnoc(discarded: set<nat>, order: seq<Elt>, e: Elt)
    ensures Run(discarded, order + [e]) == Step(discarded, Run(discarded, order), e)
  {
    assert (order + [e])[..|order|] == order;
  }

  /** s' is what one more call makes of s. */
  predicate Follows(discarded: set<nat>, s: State, e: Elt, s': State) {
    var t := Undiscarded(discarded, e.features);
    var isNew := e.hash !in s.seen && !AllSeen(s.merged, t);
    && s'.seen == s.seen + {e.hash}
    && |s'.seen| == |s.seen| + (if e.hash in s.seen then 0 else 1)
    && s'.merged == s.merged + (if isNew then multiset(t) else multiset{})
    && s'.written == s.written + if isNew then [e.(features := t)] else []
  }

  lemma RunStep(discarded: set<nat>, order: seq<Elt>, e: Elt)
    ensures Follows(discarded, Run(discarded, order), e, Run(discarded, order + [e]))
  {
    RunSnoc(discarded, order, e);
    var s := Run(discarded, order);
    if e.hash in s.seen {
      assert s.seen + {e.hash} == s.seen;
    }
  }

  class DistillingInputFilter {
    var seenInputs: set<nat>
    const features: FeatureSet
    var numTotal: nat
    var numByteUnique: nat
    var numFeatureUnique: nat
    ghost var order: seq<Elt>

    function Repr(): set<object> { {this} + features.Repr() }

    /** The fields are those of the abstract run over the calls made so far. */
    ghost predicate Valid()
      reads Repr()
    {
      && this !in features.Repr() && features.Valid()
      && Tracks(Run(features.discarded, order), |order|)
    }

    ghost predicate Tracks(s: State, calls: nat)
      reads this, features
    {
      && seenInputs == s.seen && features.merged == s.merged
      && numTotal == calls && numByteUnique == |s.seen| && numFeatureUnique == |s.written|
    }

    constructor (threshold: U8, discarded: set<nat>)
      requires threshold >= 1
      ensures Valid() && fresh(Repr()) && order == [] && features.discarded == discarded
    {
      features := new FeatureSet(threshold, discarded);
      seenInputs, numTotal, numByteUnique, numFeatureUnique, order := {}, 0, 0, 0, [];
    }

    /** Returns the trimmed element when it is to be written. */
    method FilterElt(e: Elt) returns (r: Option<Elt>)
      requires Valid()
      modifies Repr()
      ensures Valid() && order == old(order) + [e]
      ensures var before, after := Run(features.discarded, old(order)), Run(features.discarded, order);
              after.written == before.written + if r.Some? then [r.value] else []
    {
      RunStep(features.discarded, order, e);
      r := Filter(e, Run(features.discarded, order), Run(features.discarded, order + [e]), |order|);
      order := order + [e];
    }

    /** The body of FilterElt, from a state to the state that follows it. */
    method Filter(e: Elt, ghost s: State, ghost s': State, ghost calls: nat) returns (r: Option<Elt>)
      requires this !in features.Repr() && features.Valid() && Tracks(s, calls) && Follows(features.discarded, s, e, s')
      modifies this`seenInputs, this`numTotal, this`numByteUnique, this`numFeatureUnique, features.Repr()
      ensures features.Valid() && Tracks(s', calls + 1)
      ensures s'.written == s.written + if r.Some? then [r.value] else []
    {
      var isNew, trimmed := false, [];
      if e.hash !in seenInputs {
        isNew, trimmed := MergeIfNew(e.features);
        numByteUnique := numByteUnique + 1;
      }
      numTotal := numTotal + 1;
      seenInputs := seenInputs + {e.hash};
      r := None;
      if isNew {
        numFeatureUnique := numFeatureUnique + 1;
        r := Some(e.(features := trimmed));
      }
    }

    /** Trims the features and merges them unless all were seen. */
    method MergeIfNew(fs: seq<Feature>) returns (isNew: bool, trimmed: seq<Feature>)
      requires features.Valid()
      modifies features.Repr()
      ensures features.Valid() && trimmed == Undiscarded(features.discarded, fs)
      ensures isNew == !AllSeen(old(features.merged), trimmed)
      ensures features.merged == old(features.merged) + if isNew then multiset(trimmed) else multiset{}
    {
      trimmed := features.PruneDiscardedDomains(fs);
      UndiscardedMembers(features.discarded, fs);
      isNew := features.HasUnseenFeatures(trimmed);
      if isNew {
        features.MergeFeatures(trimmed);
      }
    }
  }

  // ------------------------------------------------------- coverage theorems

  /** All undiscarded features of a corpus. */
  function Total(discarded: set<nat>, elts: seq<Elt>): multiset<Feature> {
    if elts == [] then multiset{}
    else Total(discarded, elts[..|elts| - 1]) + multiset(Undiscarded(discarded, elts[|elts| - 1].features))
  }

  function Hashes(elts: seq<Elt>): set<nat> { set e | e in elts :: e.hash }

  /** The first element of every hash, in order. */
  function Firsts(elts: seq<Elt>): seq<Elt> {
    if elts == [] then []
    else
      var before, last := elts[..|elts| - 1], elts[|elts| - 1];
      if last.hash in Hashes(before) then Firsts(before) else Firsts(before) + [last]
  }

  ghost predicate SameSeen(a: multiset<Feature>, b: multiset<Feature>) {
    forall f: Feature :: Seen(a, f) <==> Seen(b, f)
  }

  lemma SeenUnion(a: multiset<Feature>, b: multiset<Feature>, f: Feature)
    ensures Seen(a + b, f) <==> Seen(a, f) || Seen(b, f)
  {
    if Seen(a + b, f) {
      var g :| g in a + b && Key(g) == Key(f) && g >= f;
      assert g in a || g in b;
    }
    if Seen(a, f) {
      SeenMonotone(a, a + b, f);
    }
    if Seen(b, f) {
      SeenMonotone(b, a + b, f);
    }
  }

  lemma SameSeenUnion(a: multiset<Feature>, b: multiset<Feature>, c: multiset<Feature>)
    requires SameSeen(a, b)
    ensures SameSeen(a + c, b + c)
  {
    forall f: Feature ensures Seen(a + c, f) <==> Seen(b + c, f) {
      SeenUnion(a, c, f);
      SeenUnion(b, c, f);
    }
  }

  lemma Absorb(m: multiset<Feature>, fs: seq<Feature>)
    requires AllSeen(m, fs)
    ensures SameSeen(m, m + multiset(fs))
  {
    forall f: Feature ensures Seen(m, f) <==> Seen(m + multiset(fs), f) {
      SeenUnion(m, multiset(fs), f);
      if Seen(multiset(fs), f) {
        SeenTransitive(multiset(fs), m, f);
      }
    }
  }

  lemma TotalSnoc(discarded: set<nat>, elts: seq<Elt>, e: Elt)
    ensures Total(discarded, elts + [e]) == Total(discarded, elts) + multiset(Undiscarded(discarded, e.features))
  {
    assert (elts + [e])[..|elts|] == elts;
  }

  lemma {:induction false} RunSeesHashes(discarded: set<nat>, order: seq<Elt>)
    ensures Run(discarded, order).seen == Hashes(order)
  {
    if order != [] {
      var before, e := order[..|order| - 1], order[|order| - 1];
      RunSeesHashes(discarded, before);
      assert Step(discarded, Run(discarded, before), e).seen == Hashes(before) + {e.hash};
      HashesSnoc(before, e);
      assert order == before + [e];
    }
  }

  lemma HashesSnoc(elts: seq<Elt>, e: Elt)
    ensures Hashes(elts + [e]) == Hashes(elts) + {e.hash}
  {
    var all := elts + [e];
    assert all[|elts|] == e && forall i :: 0 <= i < |elts| ==> all[i] == elts[i];
  }

  /** What distillation covers, exactly: the first element of every hash.  An
      element whose hash was seen before contributes nothing. */
  lemma {:induction false} CoversFirsts(discarded: set<nat>, order: seq<Elt>)
    ensures SameSeen(Run(discarded, order).merged, Total(discarded, Firsts(order)))
  {
    if order != [] {
      var before, e := order[..|order| - 1], order[|order| - 1];
      CoversFirsts(discarded, before);
      RunSeesHashes(discarded, before);
      if e.hash !in Hashes(before) {
        var fs := Undiscarded(discarded, e.features);
        var m := Run(discarded, before).merged;
        TotalSnoc(discarded, Firsts(before), e);
        SameSeenUnion(m, Total(discarded, Firsts(before)), multiset(fs));
        if AllSeen(m, fs) {
          Absorb(m, fs);
        }
      }
    }
  }

  predicate Coherent(elts: seq<Elt>) {
    forall a, b :: a in elts && b in elts && a.hash == b.hash ==> a.features == b.features
  }

  /** When equal hashes carry equal features nothing is lost: the written elements
      cover what the whole corpus covers. */
  lemma CoversCorpus(discarded: set<nat>, order: seq<Elt>)
    requires Coherent(order)
    ensures SameSeen(Run(discarded, order).merged, Total(discarded, order))
  {
    CoversFirsts(discarded, order);
    FirstsCoverAll(discarded, order);
  }

  lemma {:induction false} FirstsCoverAll(discarded: set<nat>, order: seq<Elt>)
    requires Coherent(order)
    ensures SameSeen(Total(discarded, Firsts(order)), Total(discarded, order))
    ensures forall e <- order :: e in Firsts(order)
  {
    if order != [] {
      var before, e := order[..|order| - 1], order[|order| - 1];
      assert order == before + [e];
      FirstsCoverAll(discarded, before);
      SameSeenUnion(Total(discarded, Firsts(before)), Total(discarded, before),
                    multiset(Undiscarded(discarded, e.features)));
      if e.hash in Hashes(before) {
        var twin :| twin in before && twin.hash == e.hash;
        assert twin == e;
        MembersAreSeen(discarded, before, e);
        Absorb(Total(discarded, before), Undiscarded(discarded, e.features));
      } else {
        TotalSnoc(discarded, Firsts(before), e);
      }
    }
  }

  lemma {:induction false} MembersAreSeen(discarded: set<nat>, elts: seq<Elt>, e: Elt)
    requires e in elts
    ensures AllSeen(Total(discarded, elts), Undiscarded(discarded, e.features))
  {
    var before, last := elts[..|elts| - 1], elts[|elts| - 1];
    assert elts == before + [last];
    forall f | f in Undiscarded(discarded, e.features) ensures Seen(Total(discarded, elts), f) {
      if e == last {
        assert f in multiset(Undiscarded(discarded, last.features));
        MergedIsSeen(Total(discarded, elts), f);
      } else {
        MembersAreSeen(discarded, before, e);
        SeenMonotone(Total(discarded, before), Total(discarded, elts), f);
      }
    }
  }

  /** Without that hypothesis coverage can be lost: of two inputs with one hash,
      only the features of the first are kept. */
  lemma HashCollisionLosesCoverage()
    ensures var order := [Elt(7, [1]), Elt(7, [2])];
            Seen(Total({}, order), 2) && !Seen(Run({}, order).merged, 2)
  {
    var a, b := Elt(7, [1]), Elt(7, [2]);
    UndiscardedOne(1);
    UndiscardedOne(2);
    RunSnoc({}, [], a);
    RunSnoc({}, [a], b);
    TotalSnoc({}, [a], b);
    assert [] + [a] == [a] && [a] + [b] == [a, b];
    assert !AllSeen(multiset{}, [1]) by {
      assert !Seen(multiset{}, 1) && 1 in [1];
    }
    assert Run({}, [a]).merged == multiset{1};
    assert 2 in Total({}, [a, b]);
  }

  lemma UndiscardedOne(f: Feature)
    requires f < SIZE
    ensures Undiscarded({}, [f]) == [f]
  {
    assert [f][..0] == [];
  }

  lemma {:induction false} TotalMembers(discarded: set<nat>, elts: seq<Elt>, f: Feature)
    ensures f in Total(discarded, elts) <==> exists e :: e in elts && f in Undiscarded(discarded, e.features)
  {
    if elts != [] {
      TotalMembers(discarded, elts[..|elts| - 1], f);
      assert elts == elts[..|elts| - 1] + [elts[|elts| - 1]];
    }
  }

  /** The schedule does not matter: any two orders of one corpus end with the
      same seen features, the same slots and the same best scores. */
  lemma ScheduleIndependent(discarded: set<nat>, a: seq<Elt>, b: seq<Elt>)
    requires multiset(a) == multiset(b) && Coherent(a)
    ensures SameSeen(Run(discarded, a).merged, Run(discarded, b).merged)
    ensures Keys(Run(discarded, a).merged) == Keys(Run(discarded, b).merged)
    ensures forall k: Feature :: Key(k) == k ==>
              Best(Run(discarded, a).merged, k) == Best(Run(discarded, b).merged, k)
  {
    assert forall e :: e in a <==> e in multiset(a);
    assert forall e :: e in b <==> e in multiset(b);
    CoversCorpus(discarded, a);
    CoversCorpus(discarded, b);
    forall f: Feature ensures f in Total(discarded, a) <==> f in Total(discarded, b) {
      TotalMembers(discarded, a, f);
      TotalMembers(discarded, b, f);
    }
    SameMembersSameSeen(Total(discarded, a), Total(discarded, b));
    SameSeenSameBest(Run(discarded, a).merged, Run(discarded, b).merged);
  }

  lemma SameMembersSameSeen(a: multiset<Feature>, b: multiset<Feature>)
    requires forall f: Feature :: f in a <==> f in b
    ensures SameSeen(a, b)
  {
  }

  // ------------------------------------------- exactly when nothing is lost

  /** The element alone sees f. */
  predicate Sees(discarded: set<nat>, e: Elt, f: Feature) {
    Seen(multiset(Undiscarded(discarded, e.features)), f)
  }

  /** Every element with this hash sees f. */
  predicate HashSees(discarded: set<nat>, corpus: seq<Elt>, hash: nat, f: Feature) {
    forall e <- corpus :: e.hash == hash ==> Sees(discarded, e, f)
  }

  /** Whichever element of each hash comes first, every feature of the corpus is seen. */
  ghost predicate Robust(discarded: set<nat>, corpus: seq<Elt>) {
    forall f: Feature :: f in Total(discarded, corpus) ==>
      exists hash: nat :: hash in Hashes(corpus) && HashSees(discarded, corpus, hash, f)
  }

  predicate SomeSees(discarded: set<nat>, elts: seq<Elt>, f: Feature) { exists e <- elts :: Sees(discarded, e, f) }

  lemma SomeSeesSnoc(discarded: set<nat>, elts: seq<Elt>, e: Elt, f: Feature)
    ensures SomeSees(discarded, elts + [e], f) <==> SomeSees(discarded, elts, f) || Sees(discarded, e, f)
  {
    assert forall d :: d in elts + [e] <==> d in elts || d == e;
    if SomeSees(discarded, elts, f) {
      var d :| d in elts && Sees(discarded, d, f);
      assert d in elts + [e];
    }
  }

  lemma {:induction false} TotalSees(discarded: set<nat>, elts: seq<Elt>, f: Feature)
    ensures Seen(Total(discarded, elts), f) <==> SomeSees(discarded, elts, f)
  {
    if elts != [] {
      var before, e := elts[..|elts| - 1], elts[|elts| - 1];
      TotalSees(discarded, before, f);
      TotalSeesSnoc(discarded, before, e, f);
      assert elts == before + [e];
    }
  }

  lemma TotalSeesSnoc(discarded: set<nat>, before: seq<Elt>, e: Elt, f: Feature)
    requires Seen(Total(discarded, before), f) <==> SomeSees(discarded, before, f)
    ensures Seen(Total(discarded, before + [e]), f) <==> SomeSees(discarded, before + [e], f)
  {
    TotalSnoc(discarded, before, e);
    SeenUnion(Total(discarded, before), multiset(Undiscarded(discarded, e.features)), f);
    SomeSeesSnoc(discarded, before, e, f);
  }

  lemma {:induction false} FirstOfHash(elts: seq<Elt>, hash: nat)
    ensures forall e <- Firsts(elts) :: e in elts
    ensures hash in Hashes(elts) ==> exists e <- Firsts(elts) :: e.hash == hash
  {
    if elts != [] {
      var before, e := elts[..|elts| - 1], elts[|elts| - 1];
      FirstOfHash(before, hash);
      HashesSnoc(before, e);
      assert elts == before + [e];
    }
  }

  lemma SameElements(a: seq<Elt>, b: seq<Elt>)
    requires multiset(a) == multiset(b)
    ensures (forall e :: e in a <==> e in b) && Hashes(a) == Hashes(b)
  {
    forall e ensures e in a <==> e in b {
      assert e in a <==> e in multiset(a);
      assert e in b <==> e in multiset(b);
    }
  }

  /** What an order of the corpus covers is always part of the corpus; it is all of it when
      the corpus is robust. */
  lemma RobustCovers(discarded: set<nat>, corpus: seq<Elt>, order: seq<Elt>, f: Feature)
    requires multiset(order) == multiset(corpus)
    ensures Seen(Run(discarded, order).merged, f) ==> Seen(Total(discarded, corpus), f)
    ensures Robust(discarded, corpus) && f in Total(discarded, corpus) ==> Seen(Run(discarded, order).merged, f)
  {
    CoversFirsts(discarded, order);
    SameElements(order, corpus);
    TotalSees(discarded, Firsts(order), f);
    TotalSees(discarded, corpus, f);
    FirstOfHash(order, 0);
    if Robust(discarded, corpus) && f in Total(discarded, corpus) {
      var hash: nat :| hash in Hashes(corpus) && HashSees(discarded, corpus, hash, f);
      FirstOfHash(order, hash);
      var e :| e in Firsts(order) && e.hash == hash;
      assert Sees(discarded, e, f);
    }
  }

  /** The elements that see f, or those that do not, in order. */
  function Split(discarded: set<nat>, elts: seq<Elt>, f: Feature, sees: bool): seq<Elt> {
    if elts == [] then []
    else
      var e := elts[|elts| - 1];
      Split(discarded, elts[..|elts| - 1], f, sees) + if Sees(discarded, e, f) == sees then [e] else []
  }

  lemma {:induction false} SplitMembers(discarded: set<nat>, elts: seq<Elt>, f: Feature, sees: bool)
    ensures forall e :: e in Split(discarded, elts, f, sees) <==> e in elts && Sees(discarded, e, f) == sees
  {
    if elts != [] {
      var n := |elts| - 1;
      SplitMembers(discarded, elts[..n], f, sees);
      assert elts == elts[..n] + [elts[n]];
    }
  }

  lemma {:induction false} SplitIsAll(discarded: set<nat>, elts: seq<Elt>, f: Feature)
    ensures multiset(Split(discarded, elts, f, false) + Split(discarded, elts, f, true)) == multiset(elts)
  {
    if elts != [] {
      var n := |elts| - 1;
      SplitIsAll(discarded, elts[..n], f);
      var no, yes, e := Split(discarded, elts[..n], f, false), Split(discarded, elts[..n], f, true), elts[n];
      assert elts == elts[..n] + [e];
      if Sees(discarded, e, f) {
        assert Split(discarded, elts, f, false) == no && Split(discarded, elts, f, true) == yes + [e];
      } else {
        assert Split(discarded, elts, f, false) == no + [e] && Split(discarded, elts, f, true) == yes;
      }
    }
  }

  lemma {:induction false} FirstsOfKnown(a: seq<Elt>, b: seq<Elt>)
    requires Hashes(b) <= Hashes(a)
    ensures Firsts(a + b) == Firsts(a) && Hashes(a + b) == Hashes(a)
  {
    if b == [] {
      assert a + b == a;
    } else {
      var before, e := b[..|b| - 1], b[|b| - 1];
      assert b == before + [e] && a + b == (a + before) + [e];
      HashesSnoc(before, e);
      FirstsOfKnown(a, before);
      HashesSnoc(a + before, e);
      assert (a + b)[..|a + b| - 1] == a + before;
    }
  }

  /** If every hash has an element that does not see f, running those first loses f. */
  lemma BadOrder(discarded: set<nat>, corpus: seq<Elt>, f: Feature) returns (order: seq<Elt>)
    requires forall hash: nat :: hash in Hashes(corpus) ==> !HashSees(discarded, corpus, hash, f)
    ensures multiset(order) == multiset(corpus) && !Seen(Run(discarded, order).merged, f)
  {
    var blind, seeing := Split(discarded, corpus, f, false), Split(discarded, corpus, f, true);
    order := blind + seeing;
    SplitIsAll(discarded, corpus, f);
    SplitMembers(discarded, corpus, f, false);
    SplitMembers(discarded, corpus, f, true);
    forall hash | hash in Hashes(seeing) ensures hash in Hashes(blind) {
      var e :| e in seeing && e.hash == hash;
      assert e in corpus;
      assert hash in Hashes(corpus);
      var other :| other in corpus && other.hash == hash && !Sees(discarded, other, f);
    }
    FirstsOfKnown(blind, seeing);
    FirstOfHash(blind, 0);
    CoversFirsts(discarded, order);
    TotalSees(discarded, Firsts(order), f);
  }

  /** Distillation covers the corpus whatever the schedule exactly when every feature of
      the corpus is seen by all elements of some hash. */
  lemma CoversInEveryOrder(discarded: set<nat>, corpus: seq<Elt>)
    ensures (forall order: seq<Elt> :: multiset(order) == multiset(corpus) ==>
               SameSeen(Run(discarded, order).merged, Total(discarded, corpus)))
            <==> Robust(discarded, corpus)
  {
    if Robust(discarded, corpus) {
      forall order: seq<Elt> | multiset(order) == multiset(corpus)
        ensures SameSeen(Run(discarded, order).merged, Total(discarded, corpus))
      {
        RobustOrderCovers(discarded, corpus, order);
      }
    } else {
      var f: Feature :| f in Total(discarded, corpus) &&
        forall hash: nat :: hash in Hashes(corpus) ==> !HashSees(discarded, corpus, hash, f);
      var order := BadOrder(discarded, corpus, f);
      MergedIsSeen(Total(discarded, corpus), f);
      assert !SameSeen(Run(discarded, order).merged, Total(discarded, corpus));
    }
  }

  lemma RobustOrderCovers(discarded: set<nat>, corpus: seq<Elt>, order: seq<Elt>)
    requires Robust(discarded, corpus) && multiset(order) == multiset(corpus)
    ensures SameSeen(Run(discarded, order).merged, Total(discarded, corpus))
  {
    var m, total := Run(discarded, order).merged, Total(discarded, corpus);
    forall g | g in total ensures Seen(m, g) {
      RobustCovers(discarded, corpus, order, g);
    }
    forall f: Feature ensures Seen(m, f) <==> Seen(total, f) {
      RobustCovers(discarded, corpus, order, f);
      if Seen(total, f) {
        SeenTransitive(total, m, f);
      }
    }
  }

  // --------------------------------------------------------- the size bound

  /** Merging the written elements reproduces the filter's history. */
  lemma {:induction false} WrittenIsMerged(discarded: set<nat>, order: seq<Elt>)
    ensures Run(discarded, order).merged == Contents(Run(discarded, order).written)
    ensures InRange(Run(discarded, order).merged)
  {
    if order != [] {
      var s, e := Run(discarded, order[..|order| - 1]), order[|order| - 1];
      WrittenIsMerged(discarded, order[..|order| - 1]);
      UndiscardedMembers(discarded, e.features);
      assert (s.written + [Trim(discarded, e)])[..|s.written|] == s.written;
    }
  }

  /** What the next call writes: the element with its undiscarded features when no earlier
      element had its hash and no written one accounts for some such feature. */
  lemma WrittenExact(discarded: set<nat>, order: seq<Elt>, e: Elt)
    ensures var written := Run(discarded, order).written;
            var isNew := e.hash !in Hashes(order)
                         && exists f <- e.features :: !Discarded(discarded, f) && !Seen(Contents(written), f);
            Run(discarded, order + [e]).written ==
            written + if isNew then [Elt(e.hash, Undiscarded(discarded, e.features))] else []
  {
    RunStep(discarded, order, e);
    RunSeesHashes(discarded, order);
    WrittenIsMerged(discarded, order);
    UndiscardedMembers(discarded, e.features);
  }

  function Contents(elts: seq<Elt>): multiset<Feature> {
    if elts == [] then multiset{} else Contents(elts[..|elts| - 1]) + multiset(elts[|elts| - 1].features)
  }

  /** The features `m` has seen, among those of the slots `ks`. */
  ghost function Covered(m: multiset<Feature>, ks: set<Feature>): set<Feature> {
    set f: Feature | f < SIZE && Seen(m, f) && Key(f) in ks
  }

  ghost function SumBest(m: multiset<Feature>, ks: set<Feature>): nat {
    if ks == {} then 0 else
      var k :| k in ks;
      Best(m, k) + SumBest(m, ks - {k})
  }

  function Range(lo: nat, n: nat): set<nat> {
    if n == 0 then {} else Range(lo, n - 1) + {lo + n - 1}
  }

  lemma {:induction false} RangeSize(lo: nat, n: nat)
    ensures |Range(lo, n)| == n && forall i :: i in Range(lo, n) <==> lo <= i < lo + n
  {
    if n > 0 {
      RangeSize(lo, n - 1);
    }
  }

  lemma KeyOfOffset(k: Feature, t: nat)
    requires Key(k) == k && (if IsCmpScore(k) then t < 64 else t == 0)
    ensures Key(k + t) == k
  {
    if IsCmpScore(k) {
      assert (k + t) % 64 == t;
    }
  }

  lemma SlotMembers(m: multiset<Feature>, k: Feature, f: Feature)
    requires InRange(m) && Key(k) == k && k in Keys(m)
    ensures f in Covered(m, {k}) <==> k <= f < k + Best(m, k) + 1
  {
    KeyOfBest(m, k);
    BestIsMerged(m, k);
    BestFromIsMax(m, k, 63);
    if k <= f <= k + Best(m, k) {
      KeyOfOffset(k, f - k);
      assert k + Best(m, k) in m;
    }
  }

  /** A slot contributes one feature per score up to its best. */
  lemma SlotCovers(m: multiset<Feature>, k: Feature)
    requires InRange(m) && k in Keys(m)
    ensures |Covered(m, {k})| == 1 + Best(m, k)
  {
    var g :| g in m && Key(g) == k;
    KeyFacts(g);
    forall f: Feature ensures f in Covered(m, {k}) <==> k <= f < k + Best(m, k) + 1 {
      SlotMembers(m, k, f);
    }
    RangeSize(k, Best(m, k) + 1);
    assert Covered(m, {k}) == Range(k, Best(m, k) + 1);
  }

  lemma {:induction false} CoveredSize(m: multiset<Feature>, ks: set<Feature>)
    requires InRange(m) && ks <= Keys(m)
    ensures |Covered(m, ks)| == |ks| + SumBest(m, ks)
    decreases ks
  {
    if ks == {} {
      assert Covered(m, ks) == {};
    } else {
      var k :| k in ks && SumBest(m, ks) == Best(m, k) + SumBest(m, ks - {k});
      CoveredSize(m, ks - {k});
      SlotCovers(m, k);
      CoveredSplits(m, ks, k);
    }
  }

  lemma CoveredSplits(m: multiset<Feature>, ks: set<Feature>, k: Feature)
    requires InRange(m) && k in ks
    ensures |Covered(m, ks)| == |Covered(m, {k})| + |Covered(m, ks - {k})|
  {
    var one, rest := Covered(m, {k}), Covered(m, ks - {k});
    assert Covered(m, ks) == one + rest;
    assert one !! rest;
  }

  lemma {:induction false} WrittenAtMostCovered(discarded: set<nat>, order: seq<Elt>)
    ensures var s := Run(discarded, order); |s.written| <= |Covered(s.merged, Keys(s.merged))|
  {
    if order != [] {
      var before := order[..|order| - 1];
      var s, s' := Run(discarded, before), Run(discarded, order);
      WrittenAtMostCovered(discarded, before);
      if s'.written != s.written {
        WrittenIsMerged(discarded, order);
        var fs := Trim(discarded, order[|order| - 1]).features;
        var f :| f in fs && !Seen(s.merged, f);
        assert f in s'.merged;
        CoveredGrows(s.merged, s'.merged, f);
      }
    }
  }

  lemma CoveredGrows(m: multiset<Feature>, m': multiset<Feature>, f: Feature)
    requires m <= m' && InRange(m') && f in m' && !Seen(m, f)
    ensures |Covered(m, Keys(m))| + 1 <= |Covered(m', Keys(m'))|
  {
    var a, b := Covered(m, Keys(m)), Covered(m', Keys(m'));
    forall g | g in a ensures g in b {
      SeenMonotone(m, m', g);
      var h :| h in m' && Key(h) == Key(g) && h >= g;
    }
    assert f in b && f !in a;
    SubsetSize(a + {f}, b);
  }

  /** At most one element is written per seen slot and per point of best score. */
  lemma WrittenBound(discarded: set<nat>, order: seq<Elt>)
    ensures var s := Run(discarded, order);
            |s.written| <= |Keys(s.merged)| + SumBest(s.merged, Keys(s.merged))
  {
    WrittenIsMerged(discarded, order);
    WrittenAtMostCovered(discarded, order);
    CoveredSize(Run(discarded, order).merged, Keys(Run(discarded, order).merged));
  }

  // ---------------------------------------------------------- shard assignment

  function Concat(lists: seq<seq<nat>>): multiset<nat> {
    if lists == [] then multiset{} else multiset(lists[0]) + Concat(lists[1..])
  }

  lemma {:induction false} ConcatUpdate(lists: seq<seq<nat>>, i: nat, x: nat)
    requires i < |lists|
    ensures Concat(lists[i := lists[i] + [x]]) == Concat(lists) + multiset{x}
  {
    var updated := lists[i := lists[i] + [x]];
    if i == 0 {
      assert updated[1..] == lists[1..];
    } else {
      ConcatUpdate(lists[1..], i - 1, x);
      assert updated[1..] == lists[1..][i - 1 := lists[1..][i - 1] + [x]];
    }
  }

  lemma {:induction false} ConcatEmpty(lists: seq<seq<nat>>)
    requires forall i :: 0 <= i < |lists| ==> lists[i] == []
    ensures Concat(lists) == multiset{}
  {
    if lists != [] {
      ConcatEmpty(lists[1..]);
    }
  }

  /** Deals the shuffled shards to the writers: every shard to exactly one, and
      no two writers differ by more than one shard. */
  method AssignShards(shuffled: seq<nat>, numThreads: nat) returns (perThread: seq<seq<nat>>)
    requires numThreads > 0
    ensures |perThread| == numThreads && Concat(perThread) == multiset(shuffled)
    ensures forall i, j :: 0 <= i < numThreads && 0 <= j < numThreads ==> |perThread[i]| <= |perThread[j]| + 1
  {
    perThread := seq(numThreads, _ => []);
    ConcatEmpty(perThread);
    var thread: nat := 0;
    ghost var round: nat := 0;
    for n := 0 to |shuffled|
      invariant thread < numThreads && |perThread| == numThreads && Dealt(perThread, thread, round)
      invariant Concat(perThread) == multiset(shuffled[..n])
    {
      ConcatUpdate(perThread, thread, shuffled[n]);
      DealOne(perThread, thread, round, shuffled[n]);
      SnocMultiset(shuffled, n);
      perThread := perThread[thread := perThread[thread] + [shuffled[n]]];
      thread := (thread + 1) % numThreads;
      if thread == 0 {
        round := round + 1;
      }
    }
    assert shuffled[..|shuffled|] == shuffled;
  }

  /** Every writer has `round` shards, and those before `thread` one more. */
  predicate Dealt(lists: seq<seq<nat>>, thread: nat, round: nat) {
    forall i | 0 <= i < |lists| :: |lists[i]| == if i < thread then round + 1 else round
  }

  lemma DealOne(lists: seq<seq<nat>>, thread: nat, round: nat, x: nat)
    requires thread < |lists| && Dealt(lists, thread, round)
    ensures var dealt, next: nat := lists[thread := lists[thread] + [x]], (thread + 1) % |lists|;
            Dealt(dealt, next, if next == 0 then round + 1 else round)
  {
    if thread + 1 == |lists| {
      assert (thread + 1) % |lists| == 0;
    } else {
      assert (thread + 1) % |lists| == thread + 1;
    }
  }

  lemma SnocMultiset(s: seq<nat>, n: nat)
    requires n < |s|
    ensures multiset(s[..n + 1]) == multiset(s[..n]) + multiset{s[n]}
  {
    assert s[..n + 1] == s[..n] + [s[n]];
  }
}
