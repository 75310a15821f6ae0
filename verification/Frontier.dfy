/** Coverage per function and the coverage frontier: the covered blocks that have
    an uncovered successor, weighted by the code behind them. */
module Frontiers {
  import opened Features
  import opened ControlFlow

  // --------------------------------------------------------------- functions

  /** The first function entry at or after `i`, or the end of the table. */
  function NextEntry(table: seq<PcInfo>, i: nat): (e: nat)
    requires i <= |table|
    ensures i <= e <= |table| && (e < |table| ==> table[e].isEntry)
    ensures forall k :: i <= k < e ==> !table[k].isEntry
    decreases |table| - i
  {
    if i == |table| || table[i].isEntry then i else NextEntry(table, i + 1)
  }

  /** The end of the function that starts at `beg`. */
  function FunctionEnd(table: seq<PcInfo>, beg: nat): nat
    requires beg < |table|
  {
    NextEntry(table, beg + 1)
  }

  /** The inner loop of the iterations over the functions of the table. */
  method FindFunctionEnd(table: seq<PcInfo>, beg: nat) returns (end: nat)
    requires beg < |table|
    ensures end == FunctionEnd(table, beg)
  {
    end := beg + 1;
    while end < |table| && !table[end].isEntry
      invariant beg < end <= |table| && NextEntry(table, end) == FunctionEnd(table, beg)
    {
      end := end + 1;
    }
  }

  predicate StartsWithEntry(table: seq<PcInfo>) { table != [] ==> table[0].isEntry }

  function CountTrue(s: seq<bool>, from: nat, to: nat): (n: nat)
    requires from <= to <= |s|
    ensures n <= to - from
    ensures n > 0 <==> exists i :: from <= i < to && s[i]
    ensures n == to - from <==> forall i :: from <= i < to ==> s[i]
  {
    if from == to then 0 else CountTrue(s, from, to - 1) + if s[to - 1] then 1 else 0
  }

  predicate AllTrue(s: seq<bool>, from: nat, to: nat)
    requires to <= |s|
  {
    forall i :: from <= i < to ==> s[i]
  }

  /** Some, but not all, of the blocks of the function at `beg` are covered. */
  predicate PartlyCovered(table: seq<PcInfo>, covered: seq<bool>, beg: nat)
    requires beg < |table| == |covered|
  {
    var end := FunctionEnd(table, beg);
    (exists i :: beg <= i < end && covered[i]) && !AllTrue(covered, beg, end)
  }

  /** The functions before index `n` that are covered in part but not in full. */
  function PartlyCoveredFunctions(table: seq<PcInfo>, covered: seq<bool>, n: nat): set<nat>
    requires n <= |table| == |covered|
  {
    set b | 0 <= b < n && table[b].isEntry && PartlyCovered(table, covered, b)
  }

  lemma NextFunction(table: seq<PcInfo>, covered: seq<bool>, beg: nat)
    requires beg < |table| == |covered| && table[beg].isEntry
    ensures var end := FunctionEnd(table, beg);
            |PartlyCoveredFunctions(table, covered, end)| ==
            |PartlyCoveredFunctions(table, covered, beg)| + if PartlyCovered(table, covered, beg) then 1 else 0
  {
    var end := FunctionEnd(table, beg);
    var before, after := PartlyCoveredFunctions(table, covered, beg), PartlyCoveredFunctions(table, covered, end);
    if PartlyCovered(table, covered, beg) {
      assert after == before + {beg};
    } else {
      assert after == before;
    }
  }

  /** The first n blocks are recorded: which are covered, and which functions entirely. */
  predicate Recorded(table: seq<PcInfo>, pcs: set<nat>, covered: seq<bool>, full: seq<bool>) {
    var n := |covered|;
    && |full| == n <= |table|
    && (forall i :: 0 <= i < n ==> covered[i] == (i in pcs))
    && (forall i :: 0 <= i < n ==> FunctionEnd(table, i) <= n)
    && (forall i :: 0 <= i < n ==> full[i] == (table[i].isEntry && AllTrue(covered, i, FunctionEnd(table, i))))
  }

  /** Which blocks are covered, and which functions entirely, per table index. */
  class Coverage {
    var coveredPcs: seq<bool>
    var fullyCovered: seq<bool>

    constructor (table: seq<PcInfo>, pcs: set<nat>)
      requires StartsWithEntry(table)
      ensures |coveredPcs| == |fullyCovered| == |table|
      ensures forall i :: 0 <= i < |table| ==> coveredPcs[i] == (i in pcs)
      ensures forall i :: 0 <= i < |table| ==>
                fullyCovered[i] == (table[i].isEntry && AllTrue(coveredPcs, i, FunctionEnd(table, i)))
    {
      coveredPcs, fullyCovered := [], [];
      new;
      var thisFunc := 0;
      while thisFunc < |table|
        invariant thisFunc == |coveredPcs| && (thisFunc < |table| ==> table[thisFunc].isEntry)
        invariant Recorded(table, pcs, coveredPcs, fullyCovered)
      {
        var nextFunc := FindFunctionEnd(table, thisFunc);
        AddFunction(table, pcs, thisFunc, nextFunc);
        thisFunc := nextFunc;
      }
    }

    /** Records the blocks of one function. */
    method AddFunction(table: seq<PcInfo>, pcs: set<nat>, thisFunc: nat, nextFunc: nat)
      requires thisFunc < nextFunc <= |table| && table[thisFunc].isEntry && nextFunc == FunctionEnd(table, thisFunc)
      requires thisFunc == |coveredPcs| && Recorded(table, pcs, coveredPcs, fullyCovered)
      modifies this
      ensures nextFunc == |coveredPcs| && Recorded(table, pcs, coveredPcs, fullyCovered)
    {
      var flags, numCovered := CoveredIn(pcs, thisFunc, nextFunc);
      var isFull := numCovered == nextFunc - thisFunc;
      FunctionRecorded(table, pcs, coveredPcs, fullyCovered, flags, isFull);
      coveredPcs := coveredPcs + flags;
      fullyCovered := fullyCovered + [isFull] + seq(nextFunc - thisFunc - 1, _ => false);
    }
  }

  /** The loop over the blocks of one function. */
  method CoveredIn(pcs: set<nat>, from: nat, to: nat) returns (flags: seq<bool>, numCovered: nat)
    requires from <= to
    ensures |flags| == to - from && forall k :: 0 <= k < |flags| ==> flags[k] == (from + k in pcs)
    ensures numCovered == to - from <==> AllTrue(flags, 0, |flags|)
  {
    flags, numCovered := [], 0;
    for i := from to to
      invariant |flags| == i - from && forall k :: 0 <= k < |flags| ==> flags[k] == (from + k in pcs)
      invariant numCovered <= |flags| && (numCovered == |flags| <==> AllTrue(flags, 0, |flags|))
    {
      AllTrueSnoc(flags, i in pcs);
      flags := flags + [i in pcs];
      if i in pcs {
        numCovered := numCovered + 1;
      }
    }
  }

  lemma AllTrueSnoc(s: seq<bool>, b: bool)
    ensures AllTrue(s + [b], 0, |s| + 1) <==> AllTrue(s, 0, |s|) && b
  {
    assert (s + [b])[|s|] == b && forall i :: 0 <= i < |s| ==> (s + [b])[i] == s[i];
  }

  lemma FunctionRecorded(table: seq<PcInfo>, pcs: set<nat>, covered: seq<bool>, full: seq<bool>, flags: seq<bool>, isFull: bool)
    requires Recorded(table, pcs, covered, full) && |covered| < |table| && table[|covered|].isEntry
    requires |covered| + |flags| == FunctionEnd(table, |covered|)
    requires forall k :: 0 <= k < |flags| ==> flags[k] == (|covered| + k in pcs)
    requires isFull <==> AllTrue(flags, 0, |flags|)
    ensures Recorded(table, pcs, covered + flags, full + [isFull] + seq(|flags| - 1, _ => false))
  {
    var beg, end := |covered|, |covered| + |flags|;
    var covered', full' := covered + flags, full + [isFull] + seq(|flags| - 1, _ => false);
    AllTrueShifted(covered, flags);
    forall i: nat | i < end
      ensures FunctionEnd(table, i) <= end
      ensures full'[i] == (table[i].isEntry && AllTrue(covered', i, FunctionEnd(table, i)))
    {
      if i < beg {
        SameAllTrue(covered, covered', i, FunctionEnd(table, i));
      } else {
        SameEnd(table, beg, i);
        assert full'[i] == (i == beg && isFull);
        assert i > beg ==> !table[i].isEntry;
      }
    }
  }

  lemma AllTrueShifted(a: seq<bool>, b: seq<bool>)
    ensures AllTrue(a + b, |a|, |a| + |b|) <==> AllTrue(b, 0, |b|)
  {
    assert forall k :: 0 <= k < |b| ==> b[k] == (a + b)[|a| + k];
    assert forall i :: |a| <= i < |a| + |b| ==> (a + b)[i] == b[i - |a|];
  }

  lemma SameAllTrue(s: seq<bool>, t: seq<bool>, from: nat, to: nat)
    requires to <= |s| && s <= t
    ensures AllTrue(s, from, to) == AllTrue(t, from, to)
  {
    assert forall i :: 0 <= i < |s| ==> s[i] == t[i];
  }

  lemma {:induction false} CountDependsOnRange(s: seq<bool>, t: seq<bool>, from: nat, to: nat)
    requires from <= to <= |s| && to <= |t| && forall i :: from <= i < to ==> s[i] == t[i]
    ensures CountTrue(s, from, to) == CountTrue(t, from, to)
  {
    if from < to {
      CountDependsOnRange(s, t, from, to - 1);
    }
  }

  lemma {:induction false} SameEnd(table: seq<PcInfo>, beg: nat, i: nat)
    requires beg < |table| && beg <= i < FunctionEnd(table, beg)
    ensures FunctionEnd(table, i) == FunctionEnd(table, beg)
    decreases i - beg
  {
    if i > beg {
      SameEnd(table, beg, i - 1);
    }
  }

  // ------------------------------------------------------------- the binary

  const INDIRECT: Pc := 0xFFFF_FFFF_FFFF_FFFF

  /** What is known of the target binary. */
  datatype BinaryInfo = BinaryInfo(
    table: seq<PcInfo>,
    graph: Graph,
    index: map<Pc, nat>,
    complexities: map<Pc, nat>,
    callees: map<Pc, seq<Pc>>)

  /** What the checks of the code demand: the index belongs to the table, every
      block of the table is in the graph, and a callee in the table is a function. */
  predicate WellFormed(b: BinaryInfo) {
    && StartsWithEntry(b.table) && DistinctPcs(b.table)
    && (forall i :: 0 <= i < |b.table| ==> b.table[i].pc in b.graph && b.table[i].pc in b.index && b.index[b.table[i].pc] == i)
    && (forall pc :: pc in b.index ==> b.index[pc] < |b.table| && b.table[b.index[pc]].pc == pc)
    && (forall pc :: pc in b.callees ==> forall c <- b.callees[pc] :: c in b.index ==> c in b.complexities)
  }

  /** The block is in the table and not covered. */
  predicate Uncovered(b: BinaryInfo, covered: seq<bool>, pc: Pc) {
    pc in b.index && b.index[pc] < |covered| && !covered[b.index[pc]]
  }

  /** A covered block with an uncovered successor. */
  predicate IsFrontier(b: BinaryInfo, covered: seq<bool>, i: nat)
    requires i < |b.table| == |covered|
  {
    covered[i] && b.table[i].pc in b.graph && exists s :: s in b.graph[b.table[i].pc] && Uncovered(b, covered, s)
  }

  /** How much a call to `callee` is worth. */
  function CalleeWeight(b: BinaryInfo, covered: seq<bool>, full: seq<bool>, callee: Pc): nat {
    if callee == INDIRECT then 153
    else if callee !in b.index || callee !in b.complexities || b.index[callee] >= |covered| || b.index[callee] >= |full| then 0
    else
      var i := b.index[callee];
      (if full[i] then 25 else if covered[i] then 77 else 153) * b.complexities[callee]
  }

  function CalleesWeight(b: BinaryInfo, covered: seq<bool>, full: seq<bool>, callees: seq<Pc>): nat {
    if callees == [] then 0
    else CalleesWeight(b, covered, full, callees[..|callees| - 1]) + CalleeWeight(b, covered, full, callees[|callees| - 1])
  }

  /** What each block behind the frontier is worth: its calls, if it is uncovered. */
  function BlockWeight(b: BinaryInfo, covered: seq<bool>, full: seq<bool>): Pc -> nat {
    pc => if Uncovered(b, covered, pc) && pc in b.callees then CalleesWeight(b, covered, full, b.callees[pc]) else 0
  }

  /** The code behind a block: all that is reachable from it. */
  ghost function Behind(b: BinaryInfo, covered: seq<bool>, full: seq<bool>, pc: Pc): nat {
    Sum(ReachSet(b.graph, pc), BlockWeight(b, covered, full))
  }

  ghost function SuccessorsWeight(b: BinaryInfo, covered: seq<bool>, full: seq<bool>, succs: seq<Pc>): nat {
    if succs == [] then 0
    else
      var rest, s := SuccessorsWeight(b, covered, full, succs[..|succs| - 1]), succs[|succs| - 1];
      if Uncovered(b, covered, s) then rest + Behind(b, covered, full, s) else rest
  }

  /** The weight of a block; blocks that are not covered have none. */
  ghost function Weight(b: BinaryInfo, covered: seq<bool>, full: seq<bool>, i: nat): nat
    requires i < |b.table| == |covered|
  {
    if covered[i] && b.table[i].pc in b.graph
    then SuccessorsWeight(b, covered, full, b.graph[b.table[i].pc]) else 0
  }

  lemma {:induction false} NoUncoveredSuccessors(b: BinaryInfo, covered: seq<bool>, full: seq<bool>, succs: seq<Pc>)
    requires forall s <- succs :: !Uncovered(b, covered, s)
    ensures SuccessorsWeight(b, covered, full, succs) == 0
  {
    if succs != [] {
      assert succs[|succs| - 1] in succs;
      NoUncoveredSuccessors(b, covered, full, succs[..|succs| - 1]);
    }
  }

  /** Only frontier blocks have weight. */
  lemma WeightOfNonFrontier(b: BinaryInfo, covered: seq<bool>, full: seq<bool>, i: nat)
    requires i < |b.table| == |covered| && !IsFrontier(b, covered, i)
    ensures Weight(b, covered, full, i) == 0
  {
    if covered[i] && b.table[i].pc in b.graph {
      NoUncoveredSuccessors(b, covered, full, b.graph[b.table[i].pc]);
    }
  }

  // ------------------------------------------------------------ the frontier

  /** `ComputeFrontierWeight` of coverage.cc. */
  method ComputeFrontierWeight(b: BinaryInfo, covered: seq<bool>, full: seq<bool>, callees: seq<Pc>)
    returns (weight: nat)
    requires forall pc :: pc in b.index ==> b.index[pc] < |covered| == |full|
    requires forall c <- callees :: c in b.index ==> c in b.complexities
    ensures weight == CalleesWeight(b, covered, full, callees)
  {
    weight := 0;
    for k := 0 to |callees|
      invariant weight == CalleesWeight(b, covered, full, callees[..k])
    {
      assert callees[..k + 1][..k] == callees[..k];
      var callee := callees[k];
      assert callee in callees;
      if callee == INDIRECT {
        weight := weight + 153;
      } else if callee in b.index {
        var i := b.index[callee];
        var multiplier := if full[i] then 25 else if covered[i] then 77 else 153;
        weight := weight + multiplier * b.complexities[callee];
      }
    }
    assert callees[..|callees|] == callees;
  }

  /** The innermost loop: the blocks reachable from an uncovered successor. */
  method WeighBehind(b: BinaryInfo, covered: seq<bool>, full: seq<bool>, successor: Pc) returns (weight: nat)
    requires WellFormed(b) && |covered| == |full| == |b.table| && successor in b.graph
    ensures weight == Behind(b, covered, full, successor)
  {
    var reach := ComputeReachabilityForPc(b.graph, successor);
    weight := 0;
    var rest := reach;
    while rest != {}
      invariant weight + Sum(rest, BlockWeight(b, covered, full)) == Sum(reach, BlockWeight(b, covered, full))
      decreases rest
    {
      var block :| block in rest;
      SumRemove(rest, BlockWeight(b, covered, full), block);
      if block in b.index && !covered[b.index[block]] && block in b.callees {
        var more := ComputeFrontierWeight(b, covered, full, b.callees[block]);
        weight := weight + more;
      }
      rest := rest - {block};
    }
  }

  /** The loop over the successors of one block. */
  method ProcessBlock(b: BinaryInfo, covered: seq<bool>, full: seq<bool>, i: nat) returns (frontier: bool, weight: nat)
    requires WellFormed(b) && |covered| == |full| == |b.table| && i < |b.table|
    ensures frontier == IsFrontier(b, covered, i) && weight == Weight(b, covered, full, i)
  {
    frontier, weight := false, 0;
    if !covered[i] {
      return;
    }
    var successors := b.graph[b.table[i].pc];
    for k := 0 to |successors|
      invariant frontier <==> exists s :: s in successors[..k] && Uncovered(b, covered, s)
      invariant weight == SuccessorsWeight(b, covered, full, successors[..k])
    {
      var s := successors[k];
      assert successors[..k + 1] == successors[..k] + [s] && successors[..k + 1][..k] == successors[..k];
      assert frontier || Uncovered(b, covered, s) <==> exists x :: x in successors[..k + 1] && Uncovered(b, covered, x) by {
        assert forall x :: x in successors[..k + 1] <==> x in successors[..k] || x == s;
      }
      if s in b.index && !covered[b.index[s]] {
        frontier := true;
        var more := WeighBehind(b, covered, full, s);
        weight := weight + more;
      }
    }
    assert successors[..|successors|] == successors;
  }

  class CoverageFrontier {
    const info: BinaryInfo
    const frontier: array<bool>
    const weight: array<nat>
    var numFunctions: nat

    constructor (info: BinaryInfo)
      ensures this.info == info && frontier.Length == weight.Length == |info.table| && fresh(frontier) && fresh(weight)
    {
      this.info := info;
      frontier := new bool[|info.table|](_ => false);
      weight := new nat[|info.table|](_ => 0);
      numFunctions := 0;
    }

    /** Marks the covered blocks of the corpus; features of other domains and
        indices beyond the table are ignored. */
    method MarkCovered(records: seq<seq<Feature>>) returns (pcs: set<nat>)
      requires frontier.Length == |info.table|
      modifies frontier
      ensures pcs == CoveredPcs(records, |info.table|)
      ensures forall i :: i in pcs <==> 0 <= i < |info.table| && HitBy(records, i)
      ensures forall i :: 0 <= i < frontier.Length ==> frontier[i] == (i in pcs)
    {
      forall i | 0 <= i < frontier.Length {
        frontier[i] := false;
      }
      pcs := {};
      for r := 0 to |records|
        invariant pcs == CoveredPcs(records[..r], |info.table|)
        invariant forall i :: 0 <= i < frontier.Length ==> frontier[i] == (i in pcs)
      {
        ghost var before := pcs;
        for k := 0 to |records[r]|
          invariant pcs == before + CoveredBy(records[r][..k], |info.table|)
          invariant forall i :: 0 <= i < frontier.Length ==> frontier[i] == (i in pcs)
        {
          var feature := records[r][k];
          assert records[r][..k + 1][..k] == records[r][..k];
          if InDomain(PCS_DOMAIN, feature) {
            var idx := feature - PCS_DOMAIN * DOMAIN_SIZE;
            if idx < |info.table| {
              pcs := pcs + {idx};
              frontier[idx] := true;
            }
          }
        }
        assert records[r][..|records[r]|] == records[r];
        assert records[..r + 1][..r] == records[..r];
      }
      assert records[..|records|] == records;
      CoveredExact(records, |info.table|);
    }

    /** Recomputes the frontier from the features of the corpus records: a block is frontier
        exactly when some record hits it and it has a successor in the table that no record
        hits; the functions that are hit in part are counted. */
    method Compute(records: seq<seq<Feature>>) returns (n: nat)
      requires WellFormed(info) && frontier.Length == weight.Length == |info.table|
      modifies this, frontier, weight
      ensures var table := info.table; var covered := CoveredFlags(records, |table|);
              && frontier[..] == FrontierUpTo(info, covered, |table|)
              && weight[..] == WeightsUpTo(info, covered, FullFlags(table, covered), |table|)
              && n == numFunctions == |PartlyCoveredFunctions(table, covered, |table|)|
      ensures forall i :: 0 <= i < |info.table| ==> frontier[i] == FrontierOf(info, records, i)
      ensures forall i :: 0 <= i < |info.table| && !FrontierOf(info, records, i) ==> weight[i] == 0
      ensures n == |set b | 0 <= b < |info.table| && info.table[b].isEntry && HitInPart(info.table, records, b)|
    {
      var table := info.table;
      var covered, full := Prepare(records);
      numFunctions := 0;
      var beg := 0;
      while beg < |table|
        invariant beg <= |table| && (beg < |table| ==> table[beg].isEntry)
        invariant Done(beg, covered, full)
        invariant numFunctions == |PartlyCoveredFunctions(table, covered, beg)|
      {
        var end := FindFunctionEnd(table, beg);
        NextFunction(table, covered, beg);
        ProcessFunction(beg, end, covered, full);
        beg := end;
      }
      assert frontier[..beg] == frontier[..] && weight[..beg] == weight[..];
      n := numFunctions;
      ComputeMeans(info, records);
    }

    /** Clears the old frontier, marks the covered blocks and builds the coverage. */
    method Prepare(records: seq<seq<Feature>>) returns (covered: seq<bool>, full: seq<bool>)
      requires WellFormed(info) && frontier.Length == weight.Length == |info.table|
      modifies frontier, weight
      ensures covered == CoveredFlags(records, |info.table|) && full == FullFlags(info.table, covered)
      ensures Done(0, covered, full)
    {
      var pcs := MarkCovered(records);
      forall i | 0 <= i < weight.Length {
        weight[i] := 0;
      }
      var coverage := new Coverage(info.table, pcs);
      covered, full := coverage.coveredPcs, coverage.fullyCovered;
    }

    /** The entries before `beg` are final; those after it are still the marks of
        the covered blocks. */
    ghost predicate Done(beg: nat, covered: seq<bool>, full: seq<bool>)
      reads frontier, weight
    {
      && frontier.Length == weight.Length == |info.table| == |covered| == |full| && beg <= |covered|
      && frontier[..beg] == FrontierUpTo(info, covered, beg) && frontier[beg..] == covered[beg..]
      && weight[..beg] == WeightsUpTo(info, covered, full, beg)
      && forall i :: beg <= i < weight.Length ==> weight[i] == 0
    }

    /** The callback on one function. */
    method ProcessFunction(beg: nat, end: nat, covered: seq<bool>, full: seq<bool>)
      requires WellFormed(info) && Done(beg, covered, full)
      requires beg < |info.table| && end == FunctionEnd(info.table, beg)
      modifies this, frontier, weight
      ensures numFunctions == old(numFunctions) + if PartlyCovered(info.table, covered, beg) then 1 else 0
      ensures Done(end, covered, full)
    {
      CountCovered(beg, end, covered);
      ghost var rest := frontier[end..];
      assert rest == frontier[beg..][end - beg..] == covered[end..];
      ClearFrontier(beg, end);
      ProcessBlocks(beg, end, covered, full);
    }

    method CountCovered(beg: nat, end: nat, covered: seq<bool>)
      requires beg < |info.table| && end == FunctionEnd(info.table, beg)
      requires frontier.Length == |info.table| == |covered| && frontier[beg..] == covered[beg..]
      modifies this
      ensures numFunctions == old(numFunctions) + if PartlyCovered(info.table, covered, beg) then 1 else 0
    {
      assert forall i :: beg <= i < end ==> frontier[i] == frontier[beg..][i - beg] == covered[i];
      CountDependsOnRange(frontier[..], covered, beg, end);
      var covSize := CountTrue(frontier[..], beg, end);
      if covSize > 0 && covSize < end - beg {
        numFunctions := numFunctions + 1;
      }
    }

    method ProcessBlocks(beg: nat, end: nat, covered: seq<bool>, full: seq<bool>)
      requires WellFormed(info) && frontier.Length == weight.Length == |info.table| == |covered| == |full|
      requires beg <= end <= |covered| && frontier[..beg] == FrontierUpTo(info, covered, beg)
      requires weight[..beg] == WeightsUpTo(info, covered, full, beg) && frontier[end..] == covered[end..]
      requires forall k :: beg <= k < end ==> !frontier[k]
      requires forall k :: beg <= k < weight.Length ==> weight[k] == 0
      modifies frontier, weight
      ensures Done(end, covered, full)
    {
      for i := beg to end
        invariant frontier[..i] == FrontierUpTo(info, covered, i) && weight[..i] == WeightsUpTo(info, covered, full, i)
        invariant forall k :: i <= k < end ==> !frontier[k]
        invariant frontier[end..] == covered[end..] && forall k :: i <= k < weight.Length ==> weight[k] == 0
      {
        var isFrontier, w := ProcessBlock(info, covered, full, i);
        SetBlock(i, end, isFrontier, w);
        assert forall k :: i + 1 <= k < weight.Length ==> weight[k] == weight[i + 1..][k - i - 1];
      }
    }

    method ClearFrontier(beg: nat, end: nat)
      requires beg <= end <= frontier.Length
      modifies frontier
      ensures frontier[..beg] == old(frontier[..beg]) && frontier[end..] == old(frontier[end..])
      ensures forall k :: beg <= k < end ==> !frontier[k]
    {
      forall i | beg <= i < end {
        frontier[i] := false;
      }
    }

    method SetBlock(i: nat, end: nat, isFrontier: bool, w: nat)
      requires i < end <= frontier.Length == weight.Length && !frontier[i]
      modifies frontier, weight
      ensures frontier[..i + 1] == old(frontier[..i]) + [isFrontier] && frontier[end..] == old(frontier[end..])
      ensures forall k :: i < k < end ==> frontier[k] == old(frontier[k])
      ensures weight[..i + 1] == old(weight[..i]) + [w] && weight[i + 1..] == old(weight[i + 1..])
    {
      if isFrontier {
        frontier[i] := true;
      }
      weight[i] := w;
    }
  }

  ghost function FrontierUpTo(b: BinaryInfo, covered: seq<bool>, n: nat): seq<bool>
    requires n <= |b.table| == |covered|
  {
    if n == 0 then [] else FrontierUpTo(b, covered, n - 1) + [IsFrontier(b, covered, n - 1)]
  }

  ghost function WeightsUpTo(b: BinaryInfo, covered: seq<bool>, full: seq<bool>, n: nat): seq<nat>
    requires n <= |b.table| == |covered|
  {
    if n == 0 then [] else WeightsUpTo(b, covered, full, n - 1) + [Weight(b, covered, full, n - 1)]
  }

  /** What Compute leaves behind, block by block: a block is frontier exactly when it
      is covered and has an uncovered successor in the table, and every other block
      has weight 0. */
  lemma {:induction false} FrontierAt(b: BinaryInfo, covered: seq<bool>, full: seq<bool>, n: nat, i: nat)
    requires i < n <= |b.table| == |covered|
    ensures |FrontierUpTo(b, covered, n)| == |WeightsUpTo(b, covered, full, n)| == n
    ensures FrontierUpTo(b, covered, n)[i] == IsFrontier(b, covered, i)
    ensures WeightsUpTo(b, covered, full, n)[i] == Weight(b, covered, full, i)
    ensures !FrontierUpTo(b, covered, n)[i] ==> WeightsUpTo(b, covered, full, n)[i] == 0
  {
    if i < n - 1 {
      FrontierAt(b, covered, full, n - 1, i);
    } else if n > 1 {
      FrontierAt(b, covered, full, n - 1, 0);
    }
    if !IsFrontier(b, covered, i) {
      WeightOfNonFrontier(b, covered, full, i);
    }
  }

  function CoveredFlags(records: seq<seq<Feature>>, size: nat): (flags: seq<bool>)
    ensures |flags| == size && forall i :: 0 <= i < size ==> flags[i] == (i in CoveredPcs(records, size))
  {
    var pcs := CoveredPcs(records, size);
    seq(size, i => i in pcs)
  }

  function FullFlags(table: seq<PcInfo>, covered: seq<bool>): (flags: seq<bool>)
    requires |table| == |covered|
    ensures |flags| == |table|
    ensures forall i :: 0 <= i < |table| ==>
              flags[i] == (table[i].isEntry && AllTrue(covered, i, FunctionEnd(table, i)))
  {
    seq(|table|, i requires 0 <= i < |table| => table[i].isEntry && AllTrue(covered, i, FunctionEnd(table, i)))
  }

  /** The table indices covered by one record, and by all of them. */
  function CoveredBy(features: seq<Feature>, size: nat): set<nat> {
    if features == [] then {}
    else
      var rest, f := CoveredBy(features[..|features| - 1], size), features[|features| - 1];
      if InDomain(PCS_DOMAIN, f) && f - PCS_DOMAIN * DOMAIN_SIZE < size then rest + {f - PCS_DOMAIN * DOMAIN_SIZE} else rest
  }

  function CoveredPcs(records: seq<seq<Feature>>, size: nat): set<nat> {
    if records == [] then {} else CoveredPcs(records[..|records| - 1], size) + CoveredBy(records[|records| - 1], size)
  }

  // ------------------------------------------------------- what covered means

  /** Some record has the PC feature of the block. */
  predicate HitBy(records: seq<seq<Feature>>, i: nat) {
    i < 0x800_0000 && exists r <- records :: 0x800_0000 + i in r
  }

  /** Some record hits the block, and some successor of it is in the table and hit by none. */
  predicate FrontierOf(b: BinaryInfo, records: seq<seq<Feature>>, i: nat)
    requires i < |b.table|
  {
    && HitBy(records, i) && b.table[i].pc in b.graph
    && exists s :: s in b.graph[b.table[i].pc] && s in b.index && b.index[s] < |b.table| && !HitBy(records, b.index[s])
  }

  /** The function at `beg` has a block that is hit and one that is not. */
  predicate HitInPart(table: seq<PcInfo>, records: seq<seq<Feature>>, beg: nat)
    requires beg < |table|
  {
    && (exists i :: beg <= i < FunctionEnd(table, beg) && HitBy(records, i))
    && (exists i :: beg <= i < FunctionEnd(table, beg) && !HitBy(records, i))
  }

  lemma {:induction false} CoveredByExact(features: seq<Feature>, size: nat, i: nat)
    ensures i in CoveredBy(features, size) <==> i < size && i < 0x800_0000 && 0x800_0000 + i in features
  {
    if features != [] {
      var n := |features| - 1;
      CoveredByExact(features[..n], size, i);
      assert forall f :: f in features <==> f in features[..n] || f == features[n] by {
        assert features == features[..n] + [features[n]];
      }
    }
  }

  lemma {:induction false} CoveredExactAt(records: seq<seq<Feature>>, size: nat, i: nat)
    ensures i in CoveredPcs(records, size) <==> i < size && HitBy(records, i)
  {
    if records != [] {
      var n := |records| - 1;
      CoveredExactAt(records[..n], size, i);
      CoveredByExact(records[n], size, i);
      HitBySnoc(records[..n], records[n], i);
      assert records == records[..n] + [records[n]];
    }
  }

  lemma HitBySnoc(records: seq<seq<Feature>>, r: seq<Feature>, i: nat)
    ensures HitBy(records + [r], i) <==> HitBy(records, i) || (i < 0x800_0000 && 0x800_0000 + i in r)
  {
    var all, f := records + [r], 0x800_0000 + i;
    assert forall x :: x in all <==> x in records || x == r;
    if HitBy(all, i) {
      var x :| x in all && f in x;
      assert x == r || x in records;
    }
    if HitBy(records, i) {
      var x :| x in records && f in x;
      assert x in all;
    }
    if i < 0x800_0000 && f in r {
      assert r in all;
    }
  }

  /** The covered blocks are exactly those of the table that some record hits. */
  lemma CoveredExact(records: seq<seq<Feature>>, size: nat)
    ensures forall i :: i in CoveredPcs(records, size) <==> 0 <= i < size && HitBy(records, i)
  {
    forall i: nat ensures i in CoveredPcs(records, size) <==> i < size && HitBy(records, i) {
      CoveredExactAt(records, size, i);
    }
  }

  lemma ComputeMeans(b: BinaryInfo, records: seq<seq<Feature>>)
    ensures var n := |b.table|; var covered := CoveredFlags(records, n); var full := FullFlags(b.table, covered);
            && |FrontierUpTo(b, covered, n)| == |WeightsUpTo(b, covered, full, n)| == n
            && (forall i :: 0 <= i < n ==> FrontierUpTo(b, covered, n)[i] == FrontierOf(b, records, i))
            && (forall i :: 0 <= i < n && !FrontierOf(b, records, i) ==> WeightsUpTo(b, covered, full, n)[i] == 0)
            && PartlyCoveredFunctions(b.table, covered, n) ==
               set f | 0 <= f < n && b.table[f].isEntry && HitInPart(b.table, records, f)
  {
    var n := |b.table|;
    var covered := CoveredFlags(records, n);
    FlagsExact(records, n);
    FunctionsMean(b.table, records, covered);
    BlocksMean(b, records, covered, FullFlags(b.table, covered), n);
  }

  lemma {:induction false} BlocksMean(b: BinaryInfo, records: seq<seq<Feature>>, covered: seq<bool>, full: seq<bool>, n: nat)
    requires n <= |b.table| == |covered| && FlagsAre(records, covered)
    ensures |FrontierUpTo(b, covered, n)| == |WeightsUpTo(b, covered, full, n)| == n
    ensures forall i :: 0 <= i < n ==> FrontierUpTo(b, covered, n)[i] == FrontierOf(b, records, i)
    ensures forall i :: 0 <= i < n && !FrontierOf(b, records, i) ==> WeightsUpTo(b, covered, full, n)[i] == 0
  {
    if n > 0 {
      BlocksMean(b, records, covered, full, n - 1);
      FrontierMeans(b, records, covered, n - 1);
      if !IsFrontier(b, covered, n - 1) {
        WeightOfNonFrontier(b, covered, full, n - 1);
      }
    }
  }

  lemma FunctionsMean(table: seq<PcInfo>, records: seq<seq<Feature>>, covered: seq<bool>)
    requires |table| == |covered| && FlagsAre(records, covered)
    ensures PartlyCoveredFunctions(table, covered, |table|) ==
            set f | 0 <= f < |table| && table[f].isEntry && HitInPart(table, records, f)
  {
    forall f: nat | f < |table| ensures PartlyCovered(table, covered, f) <==> HitInPart(table, records, f) {
      PartlyMeans(table, records, covered, f);
    }
  }

  predicate FlagsAre(records: seq<seq<Feature>>, covered: seq<bool>) {
    forall i :: 0 <= i < |covered| ==> covered[i] == HitBy(records, i)
  }

  lemma FlagsExact(records: seq<seq<Feature>>, size: nat)
    ensures FlagsAre(records, CoveredFlags(records, size))
  {
    CoveredExact(records, size);
  }

  lemma FrontierMeans(b: BinaryInfo, records: seq<seq<Feature>>, covered: seq<bool>, i: nat)
    requires i < |b.table| == |covered| && FlagsAre(records, covered)
    ensures IsFrontier(b, covered, i) <==> FrontierOf(b, records, i)
  {
  }

  lemma PartlyMeans(table: seq<PcInfo>, records: seq<seq<Feature>>, covered: seq<bool>, beg: nat)
    requires beg < |table| == |covered| && FlagsAre(records, covered)
    ensures PartlyCovered(table, covered, beg) <==> HitInPart(table, records, beg)
  {
  }

  // -------------------------------------------------------------- weight laws

  /** Callees add up, and an uncovered, partly covered or fully covered function counts
      153, 77 or 25 times its complexity; an indirect call 153; a foreign one nothing. */
  lemma CalleeWeightExact(b: BinaryInfo, covered: seq<bool>, full: seq<bool>, callee: Pc)
    requires |covered| == |full| == |b.table| && forall pc :: pc in b.index ==> b.index[pc] < |b.table|
    requires callee in b.index ==> callee in b.complexities
    ensures callee == 0xFFFF_FFFF_FFFF_FFFF ==> CalleeWeight(b, covered, full, callee) == 153
    ensures callee != 0xFFFF_FFFF_FFFF_FFFF && callee !in b.index ==> CalleeWeight(b, covered, full, callee) == 0
    ensures callee != 0xFFFF_FFFF_FFFF_FFFF && callee in b.index ==>
              var i, w, c := b.index[callee], CalleeWeight(b, covered, full, callee), b.complexities[callee];
              && (full[i] ==> w == 25 * c) && (!full[i] && covered[i] ==> w == 77 * c)
              && (!full[i] && !covered[i] ==> w == 153 * c)
  {
  }

  lemma {:induction false} CalleesConcat(b: BinaryInfo, covered: seq<bool>, full: seq<bool>, a: seq<Pc>, c: seq<Pc>)
    ensures CalleesWeight(b, covered, full, a + c) == CalleesWeight(b, covered, full, a) + CalleesWeight(b, covered, full, c)
    ensures forall x :: CalleesWeight(b, covered, full, [x]) == CalleeWeight(b, covered, full, x)
  {
    forall x ensures CalleesWeight(b, covered, full, [x]) == CalleeWeight(b, covered, full, x) {
      assert [x][..0] == [];
    }
    if c == [] {
      assert a + c == a;
    } else {
      var n := |c| - 1;
      CalleesConcat(b, covered, full, a, c[..n]);
      assert (a + c)[..|a + c| - 1] == a + c[..n];
    }
  }

  /** The weights behind the uncovered successors add up, each occurrence counted. */
  lemma {:induction false} SuccessorsConcat(b: BinaryInfo, covered: seq<bool>, full: seq<bool>, a: seq<Pc>, c: seq<Pc>)
    ensures SuccessorsWeight(b, covered, full, a + c) ==
            SuccessorsWeight(b, covered, full, a) + SuccessorsWeight(b, covered, full, c)
    ensures forall x :: SuccessorsWeight(b, covered, full, [x]) ==
                        if Uncovered(b, covered, x) then Behind(b, covered, full, x) else 0
  {
    forall x ensures SuccessorsWeight(b, covered, full, [x]) ==
                     if Uncovered(b, covered, x) then Behind(b, covered, full, x) else 0 {
      assert [x][..0] == [];
    }
    if c == [] {
      assert a + c == a;
    } else {
      var n := |c| - 1;
      SuccessorsConcat(b, covered, full, a, c[..n]);
      assert (a + c)[..|a + c| - 1] == a + c[..n];
    }
  }

  /** What lies behind a block, from any list of the reachable blocks: the calls of those
      in the table that are not covered. */
  lemma BehindExact(b: BinaryInfo, covered: seq<bool>, full: seq<bool>, pc: Pc, list: seq<Pc>, calls: Pc -> nat)
    requires |covered| == |b.table| && forall x :: x in b.index ==> b.index[x] < |b.table|
    requires Lists(list, b.graph, pc)
    requires forall x <- list :: calls(x) ==
               if x in b.index && !covered[b.index[x]] && x in b.callees
               then CalleesWeight(b, covered, full, b.callees[x]) else 0
    ensures Behind(b, covered, full, pc) == Total(list, calls)
  {
    SumOfList(b.graph, pc, list, BlockWeight(b, covered, full));
    TotalOfEqual(list, BlockWeight(b, covered, full), calls);
  }

  /** Behind an uncovered block that leads nowhere lie its own calls. */
  lemma BehindLeaf(b: BinaryInfo, covered: seq<bool>, full: seq<bool>, pc: Pc)
    requires pc in b.graph && Existing(b.graph, b.graph[pc]) == [] && Uncovered(b, covered, pc) && pc in b.callees
    ensures Behind(b, covered, full, pc) == CalleesWeight(b, covered, full, b.callees[pc])
  {
    ComplexityOfLeaf(b.graph, pc);
    SumAdd({}, BlockWeight(b, covered, full), pc);
    assert {} + {pc} == {pc};
  }
}
