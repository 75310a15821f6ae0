/** The control flow graph: table parsing, worklist reachability and cyclomatic
    complexity in unsigned arithmetic. */
module ControlFlow {
  import opened Bytes

  type Pc = nat
  type Graph = map<Pc, seq<Pc>>

  datatype PcInfo = PcInfo(pc: Pc, isEntry: bool)

  // ------------------------------------------------------------ reachability

  /** A walk through existing blocks. */
  ghost predicate IsPath(g: Graph, p: seq<Pc>) {
    && p != [] && (forall i :: 0 <= i < |p| ==> p[i] in g)
    && (forall i :: 0 <= i < |p| - 1 ==> p[i + 1] in g[p[i]])
  }

  ghost predicate Reachable(g: Graph, a: Pc, b: Pc) {
    exists p :: IsPath(g, p) && p[0] == a && p[|p| - 1] == b
  }

  ghost function ReachSet(g: Graph, pc: Pc): set<Pc> { set x | x in g && Reachable(g, pc, x) }

  /** The successors of a block that exist in the graph, with repetitions. */
  function Existing(g: Graph, succs: seq<Pc>): seq<Pc> {
    if succs == [] then []
    else
      var rest := Existing(g, succs[..|succs| - 1]);
      if succs[|succs| - 1] in g then rest + [succs[|succs| - 1]] else rest
  }

  lemma {:induction false} ExistingMembers(g: Graph, succs: seq<Pc>)
    ensures forall x :: x in Existing(g, succs) <==> x in succs && x in g
  {
    if succs != [] {
      ExistingMembers(g, succs[..|succs| - 1]);
      assert succs == succs[..|succs| - 1] + [succs[|succs| - 1]];
    }
  }

  lemma ReachSelf(g: Graph, a: Pc)
    requires a in g
    ensures Reachable(g, a, a)
  {
    assert IsPath(g, [a]);
  }

  lemma ReachNext(g: Graph, a: Pc, b: Pc, c: Pc)
    requires Reachable(g, a, b) && b in g && c in g[b] && c in g
    ensures Reachable(g, a, c)
  {
    var p :| IsPath(g, p) && p[0] == a && p[|p| - 1] == b;
    assert IsPath(g, p + [c]);
  }

  /** A set of blocks closed under existing successors contains all that is
      reachable from it. */
  lemma {:induction false} ClosedContainsPath(g: Graph, s: set<Pc>, p: seq<Pc>)
    requires IsPath(g, p) && p[0] in s
    requires forall v, x :: v in s && v in g && x in g[v] && x in g ==> x in s
    ensures p[|p| - 1] in s
  {
    if |p| > 1 {
      assert p[1] in g[p[0]];
      ClosedContainsPath(g, s, p[1..]);
    }
  }

  lemma ClosedIsReachSet(g: Graph, s: set<Pc>, pc: Pc)
    requires pc in s && forall x :: x in s ==> x in g && Reachable(g, pc, x)
    requires forall v, x :: v in s && v in g && x in g[v] && x in g ==> x in s
    ensures s == ReachSet(g, pc)
  {
    forall x | x in g && Reachable(g, pc, x) ensures x in s {
      var p :| IsPath(g, p) && p[0] == pc && p[|p| - 1] == x;
      ClosedContainsPath(g, s, p);
    }
  }

  /** What the worklist loops keep: everything seen is reachable, and every
      existing successor of a visited block is visited or waiting. */
  ghost predicate SearchInv(g: Graph, pc: Pc, visited: set<Pc>, worklist: seq<Pc>) {
    && (pc in visited || pc in worklist)
    && (forall x :: x in visited || x in worklist ==> x in g && Reachable(g, pc, x))
    && (forall v, x :: v in visited && v in g && x in g[v] && x in g ==> x in visited || x in worklist)
  }

  lemma SearchVisit(g: Graph, pc: Pc, visited: set<Pc>, worklist: seq<Pc>)
    requires SearchInv(g, pc, visited, worklist) && worklist != [] && worklist[0] !in visited
    ensures SearchInv(g, pc, visited + {worklist[0]}, worklist[1..] + Existing(g, g[worklist[0]]))
  {
    var v, next := worklist[0], worklist[1..] + Existing(g, g[worklist[0]]);
    ExistingMembers(g, g[v]);
    forall x | x in visited + {v} || x in next ensures x in g && Reachable(g, pc, x) {
      if x in Existing(g, g[v]) {
        ReachNext(g, pc, v, x);
      }
    }
    forall x | x in worklist ensures x == v || x in next {
    }
  }

  lemma SearchSkip(g: Graph, pc: Pc, visited: set<Pc>, worklist: seq<Pc>)
    requires SearchInv(g, pc, visited, worklist) && worklist != [] && worklist[0] in visited
    ensures SearchInv(g, pc, visited, worklist[1..])
  {
    forall x | x in worklist ensures x in visited || x in worklist[1..] {
    }
  }

  lemma SearchDone(g: Graph, pc: Pc, visited: set<Pc>)
    requires SearchInv(g, pc, visited, [])
    ensures visited == ReachSet(g, pc)
  {
    ClosedIsReachSet(g, visited, pc);
  }

  /** The loop over the successors of a block, shared by the two searches. */
  method PushExisting(g: Graph, worklist: seq<Pc>, successors: seq<Pc>) returns (pushed: nat, next: seq<Pc>)
    ensures next == worklist + Existing(g, successors) && pushed == |Existing(g, successors)|
  {
    pushed, next := 0, worklist;
    for k := 0 to |successors|
      invariant next == worklist + Existing(g, successors[..k]) && pushed == |Existing(g, successors[..k])|
    {
      assert successors[..k + 1][..k] == successors[..k];
      if successors[k] in g {
        pushed := pushed + 1;
        next := next + [successors[k]];
      }
    }
    assert successors[..|successors|] == successors;
  }

  method ComputeReachabilityForPc(g: Graph, pc: Pc) returns (visited: set<Pc>)
    requires pc in g
    ensures visited == ReachSet(g, pc)
  {
    visited := {};
    var worklist := [pc];
    ReachSelf(g, pc);
    while worklist != []
      invariant SearchInv(g, pc, visited, worklist)
      decreases g.Keys - visited, |worklist|
    {
      var current := worklist[0];
      if current in visited {
        SearchSkip(g, pc, visited, worklist);
        worklist := worklist[1..];
      } else {
        SearchVisit(g, pc, visited, worklist);
        visited := visited + {current};
        var _, next := PushExisting(g, worklist[1..], g[current]);
        worklist := next;
      }
    }
    SearchDone(g, pc, visited);
  }

  // -------------------------------------------------------------- complexity

  ghost function Sum<T>(s: set<T>, f: T -> nat): nat {
    if s == {} then 0 else
      var x :| x in s;
      f(x) + Sum(s - {x}, f)
  }

  lemma {:induction false} SumRemove<T>(s: set<T>, f: T -> nat, y: T)
    requires y in s
    ensures Sum(s, f) == f(y) + Sum(s - {y}, f)
  {
    var x :| x in s && Sum(s, f) == f(x) + Sum(s - {x}, f);
    if x != y {
      SumRemove(s - {x}, f, y);
      SumRemove(s - {y}, f, x);
      assert s - {x} - {y} == s - {y} - {x};
    }
  }

  lemma SumAdd<T>(s: set<T>, f: T -> nat, y: T)
    requires y !in s
    ensures Sum(s + {y}, f) == Sum(s, f) + f(y)
  {
    SumRemove(s + {y}, f, y);
    assert s + {y} - {y} == s;
  }

  /** How many edges leave each block. */
  function OutDegree(g: Graph): Pc -> nat { v => if v in g then |Existing(g, g[v])| else 0 }

  ghost function Edges(g: Graph, s: set<Pc>): nat { Sum(s, OutDegree(g)) }

  /** edges - nodes + 2 of the subgraph reachable from `pc`, as a 32-bit value. */
  ghost function Complexity(g: Graph, pc: Pc): nat { (Edges(g, ReachSet(g, pc)) + 2 - |ReachSet(g, pc)|) % W32 }

  /** The search of the complexity computation.  Every block but the first is
      reached over an edge, so there are at least nodes - 1 edges. */
  method CountEdgesAndNodes(g: Graph, pc: Pc) returns (edgeNum: nat, nodeNum: nat)
    requires pc in g
    ensures edgeNum == Edges(g, ReachSet(g, pc)) && nodeNum == |ReachSet(g, pc)|
    ensures nodeNum <= edgeNum + 1
  {
    edgeNum, nodeNum := 0, 0;
    var visited: set<Pc> := {};
    var worklist := [pc];
    ReachSelf(g, pc);
    while worklist != []
      invariant SearchInv(g, pc, visited, worklist)
      invariant nodeNum == |visited| && edgeNum == Edges(g, visited)
      invariant nodeNum + |worklist| <= edgeNum + 1
      decreases g.Keys - visited, |worklist|
    {
      var current := worklist[0];
      if current in visited {
        SearchSkip(g, pc, visited, worklist);
        worklist := worklist[1..];
      } else {
        SearchVisit(g, pc, visited, worklist);
        SumAdd(visited, OutDegree(g), current);
        visited := visited + {current};
        nodeNum := nodeNum + 1;
        var pushed, next := PushExisting(g, worklist[1..], g[current]);
        edgeNum := edgeNum + pushed;
        worklist := next;
      }
    }
    SearchDone(g, pc, visited);
  }

  /** The value is at least 1 before narrowing, so neither the unsigned subtraction
      nor, for values below 2^32, the narrowing changes it. */
  method ComputeFunctionCyclomaticComplexity(g: Graph, pc: Pc) returns (complexity: nat)
    requires pc in g
    ensures Edges(g, ReachSet(g, pc)) + 2 - |ReachSet(g, pc)| >= 1
    ensures complexity == Complexity(g, pc)
  {
    var edgeNum, nodeNum := CountEdgesAndNodes(g, pc);
    UnsignedDifference(edgeNum, nodeNum);
    complexity := ((edgeNum - nodeNum) % W64 + 2) % W64 % W32;
  }

  lemma UnsignedDifference(e: nat, n: nat)
    requires n <= e + 1
    ensures ((e - n) % W64 + 2) % W64 % W32 == (e + 2 - n) % W32
  {
    var d := e - n;
    var q, r := d / W64, d % W64;
    assert d + 2 == r + 2 + (q * W32) * W32;
    var q' := (r + 2) / W64;
    assert (r + 2) % W64 == r + 2 - (q' * W32) * W32;
    Shift(d + 2, -(q * W32) - q' * W32);
  }

  // ---------------------------------------------------------------- the table

  /** A block of the control flow table: its PC, its successors and its callees. */
  datatype Block = Block(pc: Pc, successors: seq<Pc>, callees: seq<Pc>)

  predicate NoZeros(s: seq<nat>) { forall i :: 0 <= i < |s| ==> s[i] != 0 }

  /** The zero-delimited table the compiler emits. */
  function Flatten(blocks: seq<Block>): seq<nat> {
    if blocks == [] then []
    else [blocks[0].pc] + (blocks[0].successors + [0] + (blocks[0].callees + [0] + Flatten(blocks[1..])))
  }

  /** Later blocks of the same PC win. */
  function GraphOf(blocks: seq<Block>): Graph {
    if blocks == [] then map[]
    else GraphOf(blocks[..|blocks| - 1])[blocks[|blocks| - 1].pc := blocks[|blocks| - 1].successors]
  }

  /** Reads a zero-terminated list. */
  method ReadList(table: seq<nat>, start: nat, ghost items: seq<nat>, ghost rest: seq<nat>)
    returns (list: seq<nat>, j: nat)
    requires start <= |table| && table[start..] == items + [0] + rest && NoZeros(items)
    ensures list == items && j <= |table| && table[j..] == rest
  {
    list, j := [], start;
    while table[j] != 0
      invariant |list| <= |items| && j == start + |list| && list == items[..|list|]
      invariant j < |table| && table[j] == (items + [0] + rest)[|list|]
      decreases |table| - j
    {
      list := list + [table[j]];
      j := j + 1;
      assert table[j] == table[start..][|list|];
    }
    assert list == items;
    j := j + 1;
    assert table[j..] == table[start..][|items| + 1..];
  }

  class ControlFlowGraph {
    var graph: Graph
    var pcIndex: map<Pc, nat>
    var funcEntries: seq<bool>
    var complexities: map<Pc, nat>

    constructor ()
      ensures graph == map[] && pcIndex == map[] && complexities == map[]
    {
      graph, pcIndex, funcEntries, complexities := map[], map[], [], map[];
    }

    /** Builds the graph from the table, then the PC index and the complexity of
        every function entry of the PC table. */
    method Initialize(table: seq<nat>, pcTable: seq<PcInfo>, ghost blocks: seq<Block>)
      requires graph == map[] && pcIndex == map[] && complexities == map[]
      requires table == Flatten(blocks) && blocks != []
      requires forall b <- blocks :: NoZeros(b.successors) && NoZeros(b.callees)
      requires forall p <- pcTable :: p.isEntry ==> p.pc in GraphOf(blocks)
      modifies this
      ensures graph == GraphOf(blocks) && pcIndex == Index(pcTable) && funcEntries == EntryFlags(pcTable)
      ensures complexities == EntryComplexities(pcTable, ComplexityIn(graph))
    {
      BuildGraph(table, blocks);
      funcEntries := [];
      for i := 0 to |pcTable|
        invariant graph == GraphOf(blocks)
        invariant pcIndex == Index(pcTable[..i]) && funcEntries == EntryFlags(pcTable[..i])
        invariant complexities == EntryComplexities(pcTable[..i], ComplexityIn(graph))
      {
        var info := pcTable[i];
        assert info in pcTable && pcTable[..i + 1][..i] == pcTable[..i];
        pcIndex := pcIndex[info.pc := i];
        funcEntries := funcEntries + [info.isEntry];
        if info.isEntry {
          var complexity := ComputeFunctionCyclomaticComplexity(graph, info.pc);
          complexities := complexities[info.pc := complexity];
        }
      }
      assert pcTable[..|pcTable|] == pcTable;
    }

    method BuildGraph(table: seq<nat>, ghost blocks: seq<Block>)
      requires graph == map[] && table == Flatten(blocks)
      requires forall b <- blocks :: NoZeros(b.successors) && NoZeros(b.callees)
      modifies this`graph
      ensures graph == GraphOf(blocks)
    {
      var j: nat := 0;
      ghost var n: nat := 0;
      while j < |table|
        invariant n <= |blocks| && j <= |table| && table[j..] == Flatten(blocks[n..])
        invariant graph == GraphOf(blocks[..n])
        decreases |blocks| - n
      {
        assert blocks[n..] != [];
        ghost var b, rest := blocks[n], blocks[n + 1..];
        assert b in blocks && blocks[n..][0] == b && blocks[n..][1..] == rest;
        var pc := table[j];
        assert pc == table[j..][0] == b.pc;
        assert table[j + 1..] == table[j..][1..] == b.successors + [0] + (b.callees + [0] + Flatten(rest));
        var successors, k := ReadList(table, j + 1, b.successors, b.callees + [0] + Flatten(rest));
        graph := graph[pc := successors];
        var _, next := ReadList(table, k, b.callees, Flatten(rest));
        assert blocks[..n + 1][..n] == blocks[..n];
        j, n := next, n + 1;
      }
      assert blocks[n..] == [];
      assert blocks[..n] == blocks;
    }
  }

  function Index(pcTable: seq<PcInfo>): map<Pc, nat> {
    if pcTable == [] then map[] else Index(pcTable[..|pcTable| - 1])[pcTable[|pcTable| - 1].pc := |pcTable| - 1]
  }

  function EntryFlags(pcTable: seq<PcInfo>): seq<bool> {
    if pcTable == [] then [] else EntryFlags(pcTable[..|pcTable| - 1]) + [pcTable[|pcTable| - 1].isEntry]
  }

  function EntryComplexities(pcTable: seq<PcInfo>, complexity: Pc -> nat): map<Pc, nat> {
    if pcTable == [] then map[]
    else
      var rest, last := EntryComplexities(pcTable[..|pcTable| - 1], complexity), pcTable[|pcTable| - 1];
      if last.isEntry then rest[last.pc := complexity(last.pc)] else rest
  }

  ghost function ComplexityIn(g: Graph): Pc -> nat { pc => Complexity(g, pc) }

  predicate DistinctPcs(pcTable: seq<PcInfo>) {
    forall i, j :: 0 <= i < j < |pcTable| ==> pcTable[i].pc != pcTable[j].pc
  }

  /** With distinct PCs the index maps every PC to its position and nothing else. */
  lemma {:induction false} IndexIsExact(pcTable: seq<PcInfo>)
    requires DistinctPcs(pcTable)
    ensures forall i :: 0 <= i < |pcTable| ==> pcTable[i].pc in Index(pcTable) && Index(pcTable)[pcTable[i].pc] == i
    ensures forall pc :: pc in Index(pcTable) ==> Index(pcTable)[pc] < |pcTable| && pcTable[Index(pcTable)[pc]].pc == pc
  {
    if pcTable != [] {
      IndexIsExact(pcTable[..|pcTable| - 1]);
    }
  }

  /** Exactly the function entries have a complexity, and it is theirs. */
  lemma {:induction false} ComplexitiesAreExact(pcTable: seq<PcInfo>, complexity: Pc -> nat)
    ensures forall pc :: pc in EntryComplexities(pcTable, complexity) <==> PcInfo(pc, true) in pcTable
    ensures forall pc :: pc in EntryComplexities(pcTable, complexity) ==>
              EntryComplexities(pcTable, complexity)[pc] == complexity(pc)
  {
    if pcTable != [] {
      var init, last := pcTable[..|pcTable| - 1], pcTable[|pcTable| - 1];
      ComplexitiesAreExact(init, complexity);
      assert pcTable == init + [last];
      assert last.isEntry ==> last == PcInfo(last.pc, true);
    }
  }

  // -------------------------------------------------------------- table laws

  /** The graph has exactly the PCs of the blocks, and the successors of the last block
      of each PC: with distinct PCs, of the block. */
  lemma {:induction false} GraphExact(blocks: seq<Block>, i: nat)
    requires i < |blocks| && forall j :: i < j < |blocks| ==> blocks[j].pc != blocks[i].pc
    ensures blocks[i].pc in GraphOf(blocks) && GraphOf(blocks)[blocks[i].pc] == blocks[i].successors
    ensures forall pc :: pc in GraphOf(blocks) <==> exists b <- blocks :: b.pc == pc
  {
    var n := |blocks| - 1;
    GraphKeys(blocks);
    if i < n {
      GraphExact(blocks[..n], i);
    }
  }

  lemma {:induction false} GraphKeys(blocks: seq<Block>)
    ensures forall pc :: pc in GraphOf(blocks) <==> exists b <- blocks :: b.pc == pc
  {
    if blocks != [] {
      var n := |blocks| - 1;
      GraphKeys(blocks[..n]);
      assert forall b :: b in blocks <==> b in blocks[..n] || b == blocks[n] by {
        assert blocks == blocks[..n] + [blocks[n]];
      }
    }
  }

  /** A block is its PC and two lists, each ended by a zero; a table is one block after
      the other. */
  function FlatBlock(b: Block): seq<nat> { [b.pc] + b.successors + [0] + b.callees + [0] }

  lemma FlattenHead(b: Block, rest: seq<Block>)
    ensures Flatten([b] + rest) == FlatBlock(b) + Flatten(rest)
  {
    assert ([b] + rest)[1..] == rest;
  }

  lemma {:induction false} FlattenConcat(a: seq<Block>, b: seq<Block>)
    ensures Flatten(a + b) == Flatten(a) + Flatten(b)
  {
    if a == [] {
      assert a + b == b;
    } else {
      FlattenConcat(a[1..], b);
      FlattenStep(a[0], a[1..], b);
      assert a == [a[0]] + a[1..];
    }
  }

  lemma FlattenStep(x: Block, a: seq<Block>, b: seq<Block>)
    requires Flatten(a + b) == Flatten(a) + Flatten(b)
    ensures Flatten([x] + a + b) == Flatten([x] + a) + Flatten(b)
  {
    FlattenHead(x, a + b);
    FlattenHead(x, a);
    assert [x] + a + b == [x] + (a + b);
    Associative(FlatBlock(x), Flatten(a), Flatten(b));
  }

  lemma Associative(a: seq<nat>, b: seq<nat>, c: seq<nat>)
    ensures a + (b + c) == a + b + c
  {
  }

  lemma {:induction false} EntryFlagsAt(pcTable: seq<PcInfo>, i: nat)
    requires i < |pcTable|
    ensures |EntryFlags(pcTable)| == |pcTable| && EntryFlags(pcTable)[i] == pcTable[i].isEntry
  {
    var n := |pcTable| - 1;
    if i < n {
      EntryFlagsAt(pcTable[..n], i);
    } else if n > 0 {
      EntryFlagsAt(pcTable[..n], 0);
    }
  }

  // -------------------------------------------------------------- edge laws

  /** Every occurrence of an existing successor is an edge, in order. */
  lemma {:induction false} ExistingConcat(g: Graph, a: seq<Pc>, b: seq<Pc>)
    ensures Existing(g, a + b) == Existing(g, a) + Existing(g, b)
    ensures forall s :: Existing(g, [s]) == if s in g then [s] else []
  {
    forall s ensures Existing(g, [s]) == if s in g then [s] else [] {
      assert [s][..0] == [] && [s][1..] == [];
    }
    if b == [] {
      assert a + b == a;
    } else {
      var n := |b| - 1;
      ExistingConcat(g, a, b[..n]);
      assert (a + b)[..|a + b| - 1] == a + b[..n];
    }
  }

  /** The sum of f over a list. */
  function Total<T>(list: seq<T>, f: T -> nat): nat {
    if list == [] then 0 else Total(list[..|list| - 1], f) + f(list[|list| - 1])
  }

  predicate Distinct<T(==)>(list: seq<T>) { forall i, j :: 0 <= i < j < |list| ==> list[i] != list[j] }

  function Members<T>(list: seq<T>): set<T> { set x | x in list }

  lemma MembersSnoc<T>(list: seq<T>)
    requires Distinct(list) && list != []
    ensures var init, x := list[..|list| - 1], list[|list| - 1];
            Distinct(init) && x !in Members(init) && Members(list) == Members(init) + {x}
  {
    assert list == list[..|list| - 1] + [list[|list| - 1]];
  }

  lemma {:induction false} SumIsTotal<T>(list: seq<T>, f: T -> nat)
    requires Distinct(list)
    ensures Sum(Members(list), f) == Total(list, f) && |Members(list)| == |list|
  {
    if list == [] {
      assert Members(list) == {};
    } else {
      var init, x := list[..|list| - 1], list[|list| - 1];
      MembersSnoc(list);
      SumIsTotal(init, f);
      SumAdd(Members(init), f, x);
    }
  }

  /** The list holds every block reachable from pc once. */
  ghost predicate Lists(list: seq<Pc>, g: Graph, pc: Pc) {
    Distinct(list) && forall x :: x in list <==> x in g && Reachable(g, pc, x)
  }

  /** Complexity from any list of the reachable blocks: the edges that leave them, minus
      their number, plus two. */
  lemma ComplexityExact(g: Graph, pc: Pc, list: seq<Pc>, edges: nat, nodes: nat)
    requires Lists(list, g, pc) && edges == Total(list, OutDegree(g)) && nodes == |list|
    ensures Complexity(g, pc) == (edges + 2 - nodes) % 0x1_0000_0000
  {
    SumOfList(g, pc, list, OutDegree(g));
    ComplexityIs(g, pc, edges, nodes);
  }

  lemma ComplexityIs(g: Graph, pc: Pc, edges: nat, nodes: nat)
    requires Sum(ReachSet(g, pc), OutDegree(g)) == edges && |ReachSet(g, pc)| == nodes
    ensures Complexity(g, pc) == (edges + 2 - nodes) % 0x1_0000_0000
  {
  }

  lemma SumOfList(g: Graph, pc: Pc, list: seq<Pc>, f: Pc -> nat)
    requires Lists(list, g, pc)
    ensures Sum(ReachSet(g, pc), f) == Total(list, f) && |ReachSet(g, pc)| == |list|
  {
    assert ReachSet(g, pc) == Members(list);
    SumIsTotal(list, f);
  }

  /** Each occurrence of a successor that exists is an edge. */
  lemma OutDegreeExact(g: Graph, pc: Pc, a: seq<Pc>, s: Pc, b: seq<Pc>)
    requires pc in g && g[pc] == a + [s] + b
    ensures OutDegree(g)(pc) == |Existing(g, a)| + (if s in g then 1 else 0) + |Existing(g, b)|
  {
    ExistingConcat(g, a + [s], b);
    ExistingConcat(g, a, [s]);
  }

  lemma {:induction false} TotalOfEqual<T>(list: seq<T>, f: T -> nat, h: T -> nat)
    requires forall x <- list :: f(x) == h(x)
    ensures Total(list, f) == Total(list, h)
  {
    if list != [] {
      assert list[|list| - 1] in list;
      TotalOfEqual(list[..|list| - 1], f, h);
    }
  }

  /** A function without existing successors of its entry has complexity 1. */
  lemma ComplexityOfLeaf(g: Graph, pc: Pc)
    requires pc in g && Existing(g, g[pc]) == []
    ensures ReachSet(g, pc) == {pc} && Complexity(g, pc) == 1
  {
    ReachSelf(g, pc);
    ExistingMembers(g, g[pc]);
    ClosedIsReachSet(g, {pc}, pc);
    SumAdd({}, OutDegree(g), pc);
    assert {} + {pc} == {pc};
  }
}
