/** Comparison pairs: their encoding in the execution metadata, and the sorted
    dictionary that suggests replacements by binary search. */
module CmpDictionaries {
  import opened Bytes
  import opened Sequences
  import opened Bisection

  type Data = seq<U8>

  /** The two operands of an observed comparison. */
  datatype Pair = Pair(first: Data, second: Data)

  // ---------------------------------------------------------------- metadata

  predicate Encodable(p: Pair) { |p.first| == |p.second| < 0x100 }

  function EncodePair(p: Pair): Data
    requires Encodable(p)
  {
    [|p.first|] + p.first + p.second
  }

  function Encode(pairs: seq<Pair>): Data
    requires forall p <- pairs :: Encodable(p)
  {
    if pairs == [] then [] else EncodePair(pairs[0]) + Encode(pairs[1..])
  }

  /** The pairs before the first malformed entry, and whether there is none. */
  datatype Decoded = Decoded(ok: bool, pairs: seq<Pair>)

  function Decode(data: Data): (r: Decoded)
    ensures forall p <- r.pairs :: Encodable(p)
  {
    if data == [] then Decoded(true, [])
    else
      var size: nat := data[0];
      if 1 + 2 * size > |data| then Decoded(false, [])
      else
        var rest := Decode(data[1 + 2 * size..]);
        Decoded(rest.ok, [Pair(data[1..1 + size], data[1 + size..1 + 2 * size])] + rest.pairs)
  }

  lemma {:induction false} EncodeSnoc(pairs: seq<Pair>, p: Pair)
    requires Encodable(p) && forall q <- pairs :: Encodable(q)
    ensures Encode(pairs + [p]) == Encode(pairs) + EncodePair(p)
  {
    if pairs == [] {
      assert pairs + [p] == [p] && [p][1..] == [];
    } else {
      EncodeSnoc(pairs[1..], p);
      assert (pairs + [p])[1..] == pairs[1..] + [p];
    }
  }

  /** Decoding gives back exactly the appended pairs. */
  lemma {:induction false} DecodeEncode(pairs: seq<Pair>)
    requires forall p <- pairs :: Encodable(p)
    ensures Decode(Encode(pairs)) == Decoded(true, pairs)
  {
    if pairs != [] {
      assert pairs[0] in pairs;
      DecodeEncode(pairs[1..]);
      DecodeCons(pairs[0], Encode(pairs[1..]));
    }
  }

  lemma DecodeCons(p: Pair, rest: Data)
    requires Encodable(p)
    ensures Decode(EncodePair(p) + rest) == Decoded(Decode(rest).ok, [p] + Decode(rest).pairs)
  {
    var data, n := EncodePair(p) + rest, |p.first|;
    assert data[0] == n && data[1 + 2 * n..] == rest;
    assert data[1..1 + n] == p.first && data[1 + n..1 + 2 * n] == p.second;
  }

  /** The entry at index i of the buffer, when it is complete. */
  predicate Fits(data: Data, i: nat) { i < |data| && i + 2 * (data[i] as int) + 1 <= |data| }

  function EntryAt(data: Data, i: nat): Pair
    requires Fits(data, i)
  {
    var size: nat := data[i];
    Pair(data[i + 1..i + 1 + size], data[i + size + 1..i + 2 * size + 1])
  }

  function NextAt(data: Data, i: nat): (next: nat)
    requires Fits(data, i)
    ensures i < next <= |data|
  {
    i + 1 + 2 * (data[i] as int)
  }

  lemma DecodeAt(data: Data, i: nat)
    requires Fits(data, i)
    ensures Decode(data[i..]) == Prepend([EntryAt(data, i)], Decode(data[NextAt(data, i)..]))
  {
    var size: nat, tail := data[i], data[i..];
    assert tail[1..1 + size] == data[i + 1..i + 1 + size];
    assert tail[1 + size..1 + 2 * size] == data[i + size + 1..i + 2 * size + 1];
    assert tail[1 + 2 * size..] == data[i + 1 + 2 * size..];
  }

  function Prepend(calls: seq<Pair>, d: Decoded): Decoded { Decoded(d.ok, calls + d.pairs) }

  lemma DecodeStep(data: Data, i: nat, calls: seq<Pair>)
    requires Fits(data, i)
    ensures Prepend(calls, Decode(data[i..])) == Prepend(calls + [EntryAt(data, i)], Decode(data[NextAt(data, i)..]))
  {
    DecodeAt(data, i);
    var rest := Decode(data[NextAt(data, i)..]).pairs;
    assert calls + ([EntryAt(data, i)] + rest) == calls + [EntryAt(data, i)] + rest;
  }

  lemma DecodeStop(data: Data, i: nat)
    requires i <= |data| && !Fits(data, i)
    ensures Decode(data[i..]) == Decoded(i == |data|, [])
  {
    if i < |data| {
      assert data[i..][0] == data[i];
    }
  }

  /** A successful decoding accounts for every byte. */
  lemma {:induction false} EncodeDecode(data: Data)
    requires Decode(data).ok
    ensures Encode(Decode(data).pairs) == data
    decreases |data|
  {
    if data != [] {
      SplitHead(data);
      var p, rest := EntryAt(data, 0), data[NextAt(data, 0)..];
      EncodeDecode(rest);
      EncodeCons(p, Decode(rest).pairs);
    }
  }

  /** Any buffer is the encoding of the pairs found, followed by what is left: nothing
      on success, and otherwise an entry that announces more bytes than there are. */
  lemma {:induction false} DecodeAccounts(data: Data) returns (rest: Data)
    ensures data == Encode(Decode(data).pairs) + rest
    ensures Decode(data).ok <==> rest == []
    ensures rest != [] ==> 1 + 2 * (rest[0] as int) > |rest|
    decreases |data|
  {
    if data == [] || !Fits(data, 0) {
      rest := data;
    } else {
      SplitHead(data);
      var p, tail := EntryAt(data, 0), data[NextAt(data, 0)..];
      rest := DecodeAccounts(tail);
      EncodeCons(p, Decode(tail).pairs);
      JoinThree(EncodePair(p), Encode(Decode(tail).pairs), rest);
    }
  }

  lemma JoinThree(a: Data, b: Data, c: Data)
    ensures a + b + c == a + (b + c)
  {
  }

  /** A size byte, the first operand and the second. */
  lemma EncodedBytes(p: Pair)
    requires Encodable(p)
    ensures var bytes, n := EncodePair(p), |p.first|;
            |bytes| == 1 + 2 * n && bytes[0] == n && bytes[1..1 + n] == p.first && bytes[1 + n..] == p.second
  {
  }

  lemma SplitHead(data: Data)
    requires Fits(data, 0)
    ensures Encodable(EntryAt(data, 0))
    ensures data == EncodePair(EntryAt(data, 0)) + data[NextAt(data, 0)..]
  {
    var n: nat := data[0];
    assert data == data[..1] + data[1..1 + n] + data[1 + n..1 + 2 * n] + data[1 + 2 * n..];
  }

  lemma EncodeCons(p: Pair, pairs: seq<Pair>)
    requires Encodable(p) && forall q <- pairs :: Encodable(q)
    ensures Encode([p] + pairs) == EncodePair(p) + Encode(pairs)
  {
    assert ([p] + pairs)[1..] == pairs;
  }

  lemma Join(a: Data, b: Data, c: Data, d: Data)
    ensures a + b + c + d == a + (b + c + d)
  {
  }

  /** Reads the entry at index i, unless it is incomplete. */
  method ReadEntry(data: Data, i: nat) returns (ok: bool, p: Pair, next: nat)
    requires i < |data|
    ensures ok <==> Fits(data, i)
    ensures ok ==> p == EntryAt(data, i) && next == NextAt(data, i)
  {
    var size: nat := data[i];
    if i + 2 * size + 1 > |data| {
      return false, Pair([], []), i;
    }
    var a := data[i + 1..i + 1 + size];
    var b := data[i + size + 1..i + 2 * size + 1];
    return true, Pair(a, b), i + (1 + 2 * size);
  }

  class ExecutionMetadata {
    var cmpData: Data

    constructor ()
      ensures cmpData == []
    {
      cmpData := [];
    }

    method AppendCmpEntry(a: Data, b: Data) returns (ok: bool)
      modifies this
      ensures ok == Encodable(Pair(a, b))
      ensures cmpData == old(cmpData) + if ok then EncodePair(Pair(a, b)) else []
    {
      if |a| != |b| {
        return false;
      }
      if |a| >= 256 {
        return false;
      }
      Join(cmpData, [|a|], a, b);
      cmpData := cmpData + [|a|];
      cmpData := cmpData + a;
      cmpData := cmpData + b;
      return true;
    }

    /** The calls ForEachCmpEntry makes, and its result. */
    method ForEachCmpEntry() returns (ok: bool, calls: seq<Pair>)
      ensures Decoded(ok, calls) == Decode(cmpData)
    {
      ok, calls := ReadEntries(cmpData);
    }
  }

  method ReadEntries(data: Data) returns (ok: bool, calls: seq<Pair>)
    ensures Decoded(ok, calls) == Decode(data)
  {
    calls := [];
    var i: nat := 0;
    assert data[i..] == data;
    while i < |data|
      invariant i <= |data|
      invariant Decode(data) == Prepend(calls, Decode(data[i..]))
    {
      var good, entry, next := ReadEntry(data, i);
      if !good {
        DecodeStop(data, i);
        return false, calls;
      }
      DecodeStep(data, i, calls);
      i := next;
      calls := calls + [entry];
    }
    DecodeStop(data, i);
    return true, calls;
  }

  method Append(pairs: seq<Pair>) returns (metadata: ExecutionMetadata)
    requires forall p <- pairs :: Encodable(p)
    ensures fresh(metadata) && metadata.cmpData == Encode(pairs)
  {
    metadata := new ExecutionMetadata();
    for i := 0 to |pairs|
      invariant fresh(metadata) && metadata.cmpData == Encode(pairs[..i])
    {
      assert pairs[i] in pairs && forall q <- pairs[..i] :: q in pairs;
      EncodeSnoc(pairs[..i], pairs[i]);
      assert pairs[..i + 1] == pairs[..i] + [pairs[i]];
      var ok := metadata.AppendCmpEntry(pairs[i].first, pairs[i].second);
    }
    assert pairs[..|pairs|] == pairs;
  }

  /** Any sequence of appended pairs is handed back, in order. */
  method AppendAndRead(pairs: seq<Pair>) returns (calls: seq<Pair>)
    requires forall p <- pairs :: Encodable(p)
    ensures calls == pairs
  {
    var metadata := Append(pairs);
    DecodeEncode(pairs);
    var _, all := metadata.ForEachCmpEntry();
    calls := all;
  }

  // -------------------------------------------------------- dictionary order

  const MAX_ENTRY_SIZE: nat := 128
  const MIN_ENTRY_SIZE: nat := 2

  function Zeros(n: nat): (z: Data)
    ensures |z| == n && forall i | 0 <= i < n :: z[i] == 0
  {
    seq(n, _ => 0)
  }

  /** The object representation of a DictEntry: its bytes, zero padding, its size. */
  function Image(e: Data): (r: Data)
    requires |e| <= MAX_ENTRY_SIZE
    ensures |r| == MAX_ENTRY_SIZE + 1 && r[MAX_ENTRY_SIZE] == |e|
    ensures r[..|e|] == e
    ensures forall i | |e| <= i < MAX_ENTRY_SIZE :: r[i] == 0
  {
    e + Zeros(MAX_ENTRY_SIZE - |e|) + [|e|]
  }

  /** memcmp(x, y) <= 0, for buffers of one size. */
  predicate MemLeq(x: Data, y: Data)
    requires |x| == |y|
  {
    x == [] || x[0] < y[0] || (x[0] == y[0] && MemLeq(x[1..], y[1..]))
  }

  lemma {:induction false} MemTotal(x: Data, y: Data)
    requires |x| == |y|
    ensures MemLeq(x, y) || MemLeq(y, x)
  {
    if x != [] {
      MemTotal(x[1..], y[1..]);
    }
  }

  lemma {:induction false} MemAntisymmetric(x: Data, y: Data)
    requires |x| == |y| && MemLeq(x, y) && MemLeq(y, x)
    ensures x == y
  {
    if x != [] {
      MemAntisymmetric(x[1..], y[1..]);
      assert x == [x[0]] + x[1..] && y == [y[0]] + y[1..];
    }
  }

  lemma {:induction false} MemTransitive(x: Data, y: Data, z: Data)
    requires |x| == |y| == |z| && MemLeq(x, y) && MemLeq(y, z)
    ensures MemLeq(x, z)
  {
    if x != [] && x[0] == y[0] == z[0] {
      MemTransitive(x[1..], y[1..], z[1..]);
    }
  }

  /** The first byte that differs decides. */
  lemma {:induction false} MemLeqExact(x: Data, y: Data)
    requires |x| == |y|
    ensures MemLeq(x, y) <==> x == y || DiffersAt(x, y)
  {
    if x != [] {
      MemLeqExact(x[1..], y[1..]);
      DiffersStep(x, y);
      assert x == [x[0]] + x[1..] && y == [y[0]] + y[1..];
    }
  }

  /** At the first place where they differ, x is smaller. */
  predicate DiffersAt(x: Data, y: Data)
    requires |x| == |y|
  {
    exists k | 0 <= k < |x| :: x[..k] == y[..k] && x[k] < y[k]
  }

  lemma DiffersStep(x: Data, y: Data)
    requires |x| == |y| > 0
    ensures DiffersAt(x, y) <==> x[0] < y[0] || (x[0] == y[0] && DiffersAt(x[1..], y[1..]))
  {
    if k :| 0 <= k < |x| && x[..k] == y[..k] && x[k] < y[k] {
      if k > 0 {
        assert x[..k][0] == y[..k][0];
        assert x[1..][..k - 1] == x[..k][1..] == y[..k][1..] == y[1..][..k - 1];
        assert x[1..][k - 1] < y[1..][k - 1];
      }
    }
    if x[0] < y[0] {
      assert x[..0] == y[..0];
    } else if x[0] == y[0] && DiffersAt(x[1..], y[1..]) {
      var k :| 0 <= k < |x| - 1 && x[1..][..k] == y[1..][..k] && x[1..][k] < y[1..][k];
      assert x[..k + 1] == [x[0]] + x[1..][..k] && y[..k + 1] == [y[0]] + y[1..][..k];
      assert x[k + 1] < y[k + 1];
    }
  }

  lemma {:induction false} MemPrefix(x: Data, y: Data, k: nat)
    requires |x| == |y| && k <= |x| && MemLeq(x, y)
    ensures MemLeq(x[..k], y[..k])
  {
    if k > 0 && x[0] == y[0] {
      MemPrefix(x[1..], y[1..], k - 1);
      assert x[..k][1..] == x[1..][..k - 1] && y[..k][1..] == y[1..][..k - 1];
    }
  }

  lemma {:induction false} MemPointwise(x: Data, y: Data)
    requires |x| == |y| && forall i | 0 <= i < |x| :: x[i] <= y[i]
    ensures MemLeq(x, y)
  {
    if x != [] {
      assert forall i | 0 <= i < |x| - 1 :: x[1..][i] == x[i + 1] && y[1..][i] == y[i + 1];
      MemPointwise(x[1..], y[1..]);
    }
  }

  predicate Less(a: Data, b: Data)
    requires |a| <= MAX_ENTRY_SIZE && |b| <= MAX_ENTRY_SIZE
  {
    !MemLeq(Image(b), Image(a))
  }

  lemma ImageInjective(a: Data, b: Data)
    requires |a| <= MAX_ENTRY_SIZE && |b| <= MAX_ENTRY_SIZE && Image(a) == Image(b)
    ensures a == b
  {
    assert Image(a)[..|a|] == a && Image(b)[..|b|] == b;
  }

  predicate Storable(p: Pair) { MIN_ENTRY_SIZE <= |p.first| == |p.second| <= MAX_ENTRY_SIZE }

  type Entry = p: Pair | Storable(p) witness Pair([0, 0], [0, 0])

  /** The negation of std::pair's operator< with the operands exchanged. */
  predicate PairLeq(p: Entry, q: Entry)
  {
    !Less(q.first, p.first) && (Less(p.first, q.first) || !Less(q.second, p.second))
  }

  lemma PairTotal(p: Entry, q: Entry)
    ensures PairLeq(p, q) || PairLeq(q, p)
  {
    MemTotal(Image(p.first), Image(q.first));
    MemTotal(Image(p.second), Image(q.second));
  }

  lemma PairTransitive(p: Entry, q: Entry, r: Entry)
    requires PairLeq(p, q) && PairLeq(q, r)
    ensures PairLeq(p, r)
  {
    var x, y, z := Image(p.first), Image(q.first), Image(r.first);
    MemTransitive(x, y, z);
    if MemLeq(z, x) {
      MemTransitive(z, x, y);
      MemTransitive(y, z, x);
      MemTransitive(Image(p.second), Image(q.second), Image(r.second));
    }
  }

  lemma PairAntisymmetric(p: Entry, q: Entry)
    requires PairLeq(p, q) && PairLeq(q, p)
    ensures p == q
  {
    MemAntisymmetric(Image(p.first), Image(q.first));
    MemAntisymmetric(Image(p.second), Image(q.second));
    ImageInjective(p.first, q.first);
    ImageInjective(p.second, q.second);
  }

  /** Entries are ordered by their first components as memory, then by the second. */
  lemma PairLeqExact(p: Entry, q: Entry)
    ensures PairLeq(p, q) <==>
            || DiffersAt(Image(p.first), Image(q.first))
            || (p.first == q.first && (p.second == q.second || DiffersAt(Image(p.second), Image(q.second))))
  {
    LessExact(p.first, q.first);
    LessExact(q.first, p.first);
    LessExact(p.second, q.second);
    LessExact(q.second, p.second);
    LessTotal(p.first, q.first);
    LessTotal(p.second, q.second);
  }

  lemma LessExact(a: Data, b: Data)
    requires |a| <= MAX_ENTRY_SIZE && |b| <= MAX_ENTRY_SIZE
    ensures Less(a, b) <==> DiffersAt(Image(a), Image(b))
    ensures Less(a, b) ==> a != b && !Less(b, a)
  {
    var x, y := Image(a), Image(b);
    MemLeqExact(x, y);
    MemLeqExact(y, x);
    MemTotal(x, y);
    if MemLeq(x, y) && MemLeq(y, x) {
      MemAntisymmetric(x, y);
    }
    if DiffersAt(x, y) && MemLeq(y, x) {
      NotBoth(x, y);
    }
  }

  lemma NotBoth(x: Data, y: Data)
    requires |x| == |y| && DiffersAt(x, y)
    ensures x != y && !DiffersAt(y, x)
  {
    var k :| 0 <= k < |x| && x[..k] == y[..k] && x[k] < y[k];
    forall m | 0 <= m < |x| && y[..m] == x[..m] ensures !(y[m] < x[m]) {
      if m < k {
        assert y[m] == y[..k][m] == x[..k][m];
      }
    }
  }

  lemma LessTotal(a: Data, b: Data)
    requires |a| <= MAX_ENTRY_SIZE && |b| <= MAX_ENTRY_SIZE
    ensures a == b || Less(a, b) || Less(b, a)
  {
    if !Less(a, b) && !Less(b, a) {
      MemAntisymmetric(Image(a), Image(b));
      ImageInjective(a, b);
    }
  }

  predicate Sorted(dict: seq<Entry>)
  {
    forall i, j | 0 <= i < j < |dict| :: PairLeq(dict[i], dict[j])
  }

  function Insert(p: Entry, dict: seq<Entry>): seq<Entry> {
    if dict == [] || PairLeq(p, dict[0]) then [p] + dict else [dict[0]] + Insert(p, dict[1..])
  }

  function Sort(dict: seq<Entry>): seq<Entry> {
    if dict == [] then [] else Insert(dict[0], Sort(dict[1..]))
  }

  lemma SplitFirst(dict: seq<Entry>)
    requires dict != []
    ensures multiset(dict) == multiset{dict[0]} + multiset(dict[1..])
  {
    assert dict == [dict[0]] + dict[1..];
  }

  lemma SortedCons(p: Entry, tail: seq<Entry>)
    requires Sorted(tail) && forall q <- tail :: PairLeq(p, q)
    ensures Sorted([p] + tail)
  {
    var dict := [p] + tail;
    forall i, j | 0 <= i < j < |dict| ensures PairLeq(dict[i], dict[j]) {
      assert dict[j] == tail[j - 1] && tail[j - 1] in tail;
    }
  }

  lemma {:induction false} InsertPermutes(p: Entry, dict: seq<Entry>)
    ensures multiset(Insert(p, dict)) == multiset{p} + multiset(dict)
  {
    if dict != [] && !PairLeq(p, dict[0]) {
      InsertPermutes(p, dict[1..]);
      SplitFirst(dict);
    }
  }

  lemma {:induction false} InsertKeeps(p: Entry, dict: seq<Entry>)
    requires Sorted(dict)
    ensures Sorted(Insert(p, dict))
  {
    if dict == [] {
    } else if PairLeq(p, dict[0]) {
      forall q | q in dict ensures PairLeq(p, q) {
        if q != dict[0] {
          PairTransitive(p, dict[0], q);
        }
      }
      SortedCons(p, dict);
    } else {
      var tail := Insert(p, dict[1..]);
      InsertKeeps(p, dict[1..]);
      InsertPermutes(p, dict[1..]);
      forall q | q in tail ensures PairLeq(dict[0], q) {
        PairTotal(p, dict[0]);
        assert q in multiset(tail);
      }
      SortedCons(dict[0], tail);
    }
  }

  lemma {:induction false} SortSorts(dict: seq<Entry>)
    ensures Sorted(Sort(dict)) && multiset(Sort(dict)) == multiset(dict)
  {
    if dict != [] {
      SortSorts(dict[1..]);
      InsertKeeps(dict[0], Sort(dict[1..]));
      InsertPermutes(dict[0], Sort(dict[1..]));
      SplitFirst(dict);
    }
  }

  /** The order is total, so every correct sort leaves the same dictionary. */
  lemma {:induction false} SortedUnique(a: seq<Entry>, b: seq<Entry>)
    requires Sorted(a) && Sorted(b) && multiset(a) == multiset(b)
    ensures a == b
  {
    if a == [] {
      assert |multiset(b)| == 0;
    } else {
      assert |multiset(b)| == |multiset(a)|;
      LeastFirst(a, b);
      LeastFirst(b, a);
      PairAntisymmetric(a[0], b[0]);
      SplitFirst(a);
      SplitFirst(b);
      assert multiset(a[1..]) == multiset(a) - multiset{a[0]};
      assert multiset(b[1..]) == multiset(b) - multiset{b[0]};
      SortedUnique(a[1..], b[1..]);
    }
  }

  lemma LeastFirst(a: seq<Entry>, b: seq<Entry>)
    requires a != [] && b != [] && Sorted(a) && multiset(a) == multiset(b)
    ensures PairLeq(a[0], b[0])
  {
    assert b[0] in multiset(a);
    var i :| 0 <= i < |a| && a[i] == b[0];
    PairTotal(b[0], b[0]);
  }

  // ----------------------------------------------------------------- lookup

  predicate IsPrefix(e: Data, bytes: Data) { |e| <= |bytes| && bytes[..|e|] == e }

  /** The simple form of the lookup: the partners of all entries that are prefixes
      of the query, in dictionary order. */
  function Matches(dict: seq<Entry>, bytes: Data): seq<Data> {
    if dict == [] then []
    else (if IsPrefix(dict[0].first, bytes) then [dict[0].second] else []) + Matches(dict[1..], bytes)
  }

  lemma Associative(a: seq<Data>, b: seq<Data>, c: seq<Data>)
    ensures a + (b + c) == a + b + c
  {
  }

  lemma {:induction false} MatchesConcat(a: seq<Entry>, b: seq<Entry>, bytes: Data)
    ensures Matches(a + b, bytes) == Matches(a, bytes) + Matches(b, bytes)
  {
    if a == [] {
      assert a + b == b;
    } else {
      MatchesConcat(a[1..], b, bytes);
      assert (a + b)[0] == a[0] && (a + b)[1..] == a[1..] + b;
      var first := if IsPrefix(a[0].first, bytes) then [a[0].second] else [];
      Associative(first, Matches(a[1..], bytes), Matches(b, bytes));
    }
  }

  lemma MatchesSplit(dict: seq<Entry>, k: nat, bytes: Data)
    requires k <= |dict|
    ensures Matches(dict, bytes) == Matches(dict[..k], bytes) + Matches(dict[k..], bytes)
  {
    MatchesConcat(dict[..k], dict[k..], bytes);
    assert dict == dict[..k] + dict[k..];
  }

  lemma {:induction false} NoMatches(dict: seq<Entry>, bytes: Data)
    requires forall p <- dict :: !IsPrefix(p.first, bytes)
    ensures Matches(dict, bytes) == []
  {
    if dict != [] {
      assert dict[0] in dict && forall p <- dict[1..] :: p in dict;
      NoMatches(dict[1..], bytes);
    }
  }

  /** A suggestion is the partner of an entry that is a prefix of the query, and
      every such partner is suggested. */
  lemma {:induction false} MatchesExact(dict: seq<Entry>, bytes: Data, s: Data)
    ensures s in Matches(dict, bytes) <==> exists p <- dict :: IsPrefix(p.first, bytes) && p.second == s
  {
    if dict != [] {
      MatchesExact(dict[1..], bytes, s);
      assert dict == [dict[0]] + dict[1..];
    }
  }

  /** Sorting changes the order of the suggestions only. */
  lemma MatchesOfInsert(p: Entry, dict: seq<Entry>, bytes: Data)
    ensures multiset(Matches(Insert(p, dict), bytes)) ==
            multiset(Matches(dict, bytes)) + multiset(Matches([p], bytes))
  {
    var k := InsertPlace(p, dict);
    MatchesConcat(dict[..k] + [p], dict[k..], bytes);
    MatchesConcat(dict[..k], [p], bytes);
    MatchesSplit(dict, k, bytes);
  }

  lemma {:induction false} InsertPlace(p: Entry, dict: seq<Entry>) returns (k: nat)
    ensures k <= |dict| && Insert(p, dict) == dict[..k] + [p] + dict[k..]
  {
    if dict == [] || PairLeq(p, dict[0]) {
      k := 0;
    } else {
      var j := InsertPlace(p, dict[1..]);
      k := j + 1;
      assert dict[..k] == [dict[0]] + dict[1..][..j] && dict[k..] == dict[1..][j..];
    }
  }

  lemma {:induction false} MatchesOfSort(dict: seq<Entry>, bytes: Data)
    ensures multiset(Matches(Sort(dict), bytes)) == multiset(Matches(dict, bytes))
  {
    if dict != [] {
      MatchesOfSort(dict[1..], bytes);
      MatchesOfInsert(dict[0], Sort(dict[1..]), bytes);
      MatchesOfFirst(dict, bytes);
    }
  }

  lemma MatchesOfFirst(dict: seq<Entry>, bytes: Data)
    requires dict != []
    ensures multiset(Matches(dict, bytes)) == multiset(Matches([dict[0]], bytes)) + multiset(Matches(dict[1..], bytes))
  {
    MatchesSplit(dict, 1, bytes);
    assert dict[..1] == [dict[0]];
  }

  // ------------------------------------------------------------------- heads

  /** The first two bytes, as a number. */
  function Head(d: Data): nat
    requires |d| >= MIN_ENTRY_SIZE
  {
    0x100 * (d[0] as int) + d[1] as int
  }

  lemma HeadInjective(d: Data, e: Data)
    requires |d| >= MIN_ENTRY_SIZE && |e| >= MIN_ENTRY_SIZE
    ensures Head(d) == Head(e) <==> d[..MIN_ENTRY_SIZE] == e[..MIN_ENTRY_SIZE]
  {
    assert d[..MIN_ENTRY_SIZE] == [d[0], d[1]] && e[..MIN_ENTRY_SIZE] == [e[0], e[1]];
  }

  lemma MemLeqByHead(x: Data, y: Data)
    requires |x| == |y| == MIN_ENTRY_SIZE
    ensures MemLeq(x, y) <==> Head(x) <= Head(y)
  {
    assert MemLeq(x[1..], y[1..]) <==> x[1] < y[1] || (x[1] == y[1] && MemLeq(x[1..][1..], y[1..][1..]));
  }

  lemma HeadOfImage(e: Data)
    requires MIN_ENTRY_SIZE <= |e| <= MAX_ENTRY_SIZE
    ensures Image(e)[..MIN_ENTRY_SIZE] == e[..MIN_ENTRY_SIZE] && Head(e[..MIN_ENTRY_SIZE]) == Head(e)
  {
    assert Image(e)[..|e|][..MIN_ENTRY_SIZE] == e[..MIN_ENTRY_SIZE];
  }

  /** The order of the memory images never contradicts that of the heads. */
  lemma HeadsByImage(x: Data, y: Data)
    requires MIN_ENTRY_SIZE <= |x| <= MAX_ENTRY_SIZE && MIN_ENTRY_SIZE <= |y| <= MAX_ENTRY_SIZE
    requires MemLeq(Image(x), Image(y))
    ensures Head(x) <= Head(y)
  {
    HeadOfImage(x);
    HeadOfImage(y);
    MemPrefix(Image(x), Image(y), MIN_ENTRY_SIZE);
    MemLeqByHead(x[..MIN_ENTRY_SIZE], y[..MIN_ENTRY_SIZE]);
  }

  /** An entry that starts with p is not below p: zero padding is least. */
  lemma ExtensionNotBelow(p: Data, e: Data)
    requires |p| == MIN_ENTRY_SIZE <= |e| <= MAX_ENTRY_SIZE && e[..MIN_ENTRY_SIZE] == p
    ensures !Less(e, p)
  {
    forall i | 0 <= i < |Image(p)| ensures Image(p)[i] <= Image(e)[i] {
      if i < MIN_ENTRY_SIZE {
        assert Image(p)[i] == p[i] == e[i] == Image(e)[i];
      }
    }
    MemPointwise(Image(p), Image(e));
  }

  /** Against two bytes, comparing memory images compares heads. */
  lemma LessByHead(e: Data, p: Data)
    requires |p| == MIN_ENTRY_SIZE <= |e| <= MAX_ENTRY_SIZE
    ensures Less(e, p) <==> Head(e) < Head(p)
  {
    HeadInjective(e, p);
    assert p[..MIN_ENTRY_SIZE] == p;
    if Head(e) == Head(p) {
      ExtensionNotBelow(p, e);
    } else if Less(e, p) {
      MemTotal(Image(e), Image(p));
      HeadsByImage(e, p);
    } else {
      HeadsByImage(p, e);
    }
  }

  function Heads(dict: seq<Entry>): (h: seq<nat>)
    ensures |h| == |dict| && forall i | 0 <= i < |dict| :: h[i] == Head(dict[i].first)
  {
    seq(|dict|, i requires 0 <= i < |dict| => Head(dict[i].first))
  }

  /** The entries are in order as far as their first two bytes go. */
  predicate HeadsAscend(dict: seq<Entry>) { Ascending(Heads(dict)) }

  lemma SortedHeadsAscend(dict: seq<Entry>)
    requires Sorted(dict)
    ensures HeadsAscend(dict)
  {
    forall i, j | 0 <= i < j < |dict| ensures Head(dict[i].first) <= Head(dict[j].first) {
      assert PairLeq(dict[i], dict[j]);
      HeadsByImage(dict[i].first, dict[j].first);
    }
  }

  /** The comparison of the search. */
  method IsBelow(e: Data, p: Data) returns (below: bool)
    requires |p| == MIN_ENTRY_SIZE <= |e| <= MAX_ENTRY_SIZE
    ensures below <==> Head(e) < Head(p)
  {
    LessByHead(e, p);
    below := Less(e, p);
  }

  /** std::lower_bound over the first components. */
  method LowerBound(dict: seq<Entry>, p: Data) returns (k: nat)
    requires |p| == MIN_ENTRY_SIZE
    ensures k == Bisect(Heads(dict), Head(p), 0, |dict|)
  {
    k := 0;
    var len: nat := |dict|;
    ghost var heads, x := Heads(dict), Head(p);
    ghost var goal := Bisect(heads, x, k, len);
    while len > 0
      invariant k + len <= |dict| && Bisect(heads, x, k, len) == goal
    {
      k, len := HalveRange(dict, p, k, len, heads, x);
    }
  }

  /** One turn of the search. */
  method HalveRange(dict: seq<Entry>, p: Data, k: nat, len: nat, ghost heads: seq<nat>, ghost x: nat)
    returns (k': nat, len': nat)
    requires |p| == MIN_ENTRY_SIZE && len > 0 && k + len <= |dict| == |heads|
    requires heads[k + len / 2] == Head(dict[k + len / 2].first) && x == Head(p)
    ensures k' + len' <= |dict| && len' < len
    ensures Bisect(heads, x, k', len') == Bisect(heads, x, k, len)
  {
    var half := len / 2;
    var below := IsBelow(dict[k + half].first, p);
    if below {
      k', len' := k + half + 1, len - half - 1;
    } else {
      k', len' := k, half;
    }
  }

  // ------------------------------------------------------------- dictionary

  /** Both orientations of every pair whose size is in range. */
  function Oriented(pairs: seq<Pair>): seq<Entry> {
    if pairs == [] then []
    else
      var p := pairs[|pairs| - 1];
      Oriented(pairs[..|pairs| - 1]) +
      if Storable(p) then [Pair(p.first, p.second), Pair(p.second, p.first)] else []
  }

  lemma {:induction false} OrientedExact(pairs: seq<Pair>, q: Entry)
    ensures q in Oriented(pairs) <==> q in pairs || Pair(q.second, q.first) in pairs
  {
    if pairs != [] {
      var n := |pairs| - 1;
      OrientedExact(pairs[..n], q);
      assert pairs == pairs[..n] + [pairs[n]];
    }
  }

  /** How often x occurs. */
  function Occurrences<T(==)>(s: seq<T>, x: T): nat {
    if s == [] then 0 else Occurrences(s[..|s| - 1], x) + if s[|s| - 1] == x then 1 else 0
  }

  lemma OccurrencesSnoc<T>(init: seq<T>, p: T, x: T)
    ensures Occurrences(init + [p], x) == Occurrences(init, x) + if p == x then 1 else 0
  {
    assert (init + [p])[..|init|] == init;
  }

  /** Every observation counts once in either orientation. */
  lemma {:induction false} OrientedCount(pairs: seq<Pair>, q: Entry)
    ensures Occurrences(Oriented(pairs), q) == Occurrences(pairs, q) + Occurrences(pairs, Pair(q.second, q.first))
  {
    if pairs != [] {
      var n := |pairs| - 1;
      var init, p := pairs[..n], pairs[n];
      OrientedCount(init, q);
      OrientedSnoc(init, p, q);
      OccurrencesSnoc(init, p, q);
      OccurrencesSnoc(init, p, Pair(q.second, q.first));
      assert pairs == init + [p];
    }
  }

  lemma OrientedSnoc(init: seq<Pair>, p: Pair, q: Entry)
    ensures Occurrences(Oriented(init + [p]), q) ==
            Occurrences(Oriented(init), q) + (if p == q then 1 else 0) + if p == Pair(q.second, q.first) then 1 else 0
  {
    assert (init + [p])[..|init|] == init;
    var dict := Oriented(init);
    if Storable(p) {
      var e1: Entry, e2: Entry := Pair(p.first, p.second), Pair(p.second, p.first);
      assert Oriented(init + [p]) == dict + [e1] + [e2];
      OccurrencesSnoc(dict, e1, q);
      OccurrencesSnoc(dict + [e1], e2, q);
      assert e2 == q <==> p == Pair(q.second, q.first);
    } else {
      assert Oriented(init + [p]) == dict;
    }
  }

  class CmpDictionary {
    var dictionary: seq<Entry>

    constructor ()
      ensures dictionary == []
    {
      dictionary := [];
    }

    /** Malformed metadata leaves the entries found so far, unsorted. */
    method SetFromMetadata(metadata: ExecutionMetadata) returns (ok: bool)
      modifies this
      ensures ok == Decode(metadata.cmpData).ok
      ensures dictionary == DictionaryOf(metadata.cmpData)
    {
      dictionary := [];
      var good, calls := metadata.ForEachCmpEntry();
      assert calls == Decode(metadata.cmpData).pairs;
      for i := 0 to |calls|
        invariant dictionary == Oriented(calls[..i])
      {
        assert calls[i] in calls;
        OrientedStep(calls, i);
        var a, b := calls[i].first, calls[i].second;
        if |a| > MAX_ENTRY_SIZE {
        } else if |a| < MIN_ENTRY_SIZE {
        } else {
          dictionary := dictionary + [Pair(a, b)];
          dictionary := dictionary + [Pair(b, a)];
        }
      }
      assert calls[..|calls|] == calls;
      if !good {
        return false;
      }
      dictionary := Sort(dictionary);
      return true;
    }

    /** `held` is what the vector holds on entry. Whatever the order of the dictionary,
        only partners of matching entries are suggested; when the heads ascend, the
        result is the linear scan cut at the capacity. */
    method SuggestReplacement(bytes: Data, held: seq<Data>, capacity: nat) returns (suggestions: seq<Data>)
      requires |held| <= capacity
      ensures |suggestions| <= capacity
      ensures capacity > 0 ==> forall s <- suggestions :: s in Matches(dictionary, bytes)
      ensures capacity > 0 ==> suggestions == Lookup(dictionary, bytes, capacity)
      ensures HeadsAscend(dictionary) ==> suggestions == Take(Matches(dictionary, bytes), capacity)
    {
      if capacity == 0 {
        return held;
      }
      LookupSound(dictionary, bytes, capacity);
      if HeadsAscend(dictionary) {
        LookupIsLinearScan(dictionary, bytes, capacity);
      }
      suggestions := Find(dictionary, bytes, capacity);
    }
  }

  /** The search and the scan. */
  method Find(dict: seq<Entry>, bytes: Data, capacity: nat) returns (suggestions: seq<Data>)
    ensures suggestions == Lookup(dict, bytes, capacity)
  {
    if |bytes| < MIN_ENTRY_SIZE {
      return [];
    }
    var prefix := bytes[..MIN_ENTRY_SIZE];
    assert Head(prefix) == Head(bytes);
    var k := LowerBound(dict, prefix);
    suggestions := ScanMatches(dict, k, bytes, capacity);
  }

  /** The loop of the lookup. */
  method ScanMatches(dict: seq<Entry>, start: nat, bytes: Data, capacity: nat) returns (suggestions: seq<Data>)
    requires start <= |dict| && |bytes| >= MIN_ENTRY_SIZE
    ensures suggestions == ScanFrom(dict, start, bytes, capacity)
  {
    suggestions := [];
    var i := start;
    while i < |dict|
      invariant i <= |dict| && |suggestions| <= capacity
      invariant ScanFrom(dict, start, bytes, capacity) == suggestions + ScanFrom(dict, i, bytes, capacity - |suggestions|)
    {
      var a, b := dict[i].first, dict[i].second;
      if |suggestions| == capacity {
        break;
      }
      if bytes[..MIN_ENTRY_SIZE] != a[..MIN_ENTRY_SIZE] {
        break;
      }
      i := i + 1;
      if |bytes| < |a| {
        continue;
      }
      if bytes[..|a|] == a {
        suggestions := suggestions + [b];
      }
    }
  }

  /** What the scan from entry i on suggests, with room for so many suggestions. */
  function ScanFrom(dict: seq<Entry>, i: nat, bytes: Data, room: nat): seq<Data>
    requires i <= |dict| && |bytes| >= MIN_ENTRY_SIZE
    decreases |dict| - i
  {
    if i == |dict| || room == 0 || dict[i].first[..MIN_ENTRY_SIZE] != bytes[..MIN_ENTRY_SIZE] then []
    else if IsPrefix(dict[i].first, bytes) then [dict[i].second] + ScanFrom(dict, i + 1, bytes, room - 1)
    else ScanFrom(dict, i + 1, bytes, room)
  }

  /** The lookup on any dictionary, sorted or not. */
  function Lookup(dict: seq<Entry>, bytes: Data, capacity: nat): seq<Data> {
    if |bytes| < MIN_ENTRY_SIZE then []
    else ScanFrom(dict, Bisect(Heads(dict), Head(bytes), 0, |dict|), bytes, capacity)
  }

  /** A match has the head of the query. */
  lemma MatchHasHead(e: Data, bytes: Data)
    requires |e| >= MIN_ENTRY_SIZE && IsPrefix(e, bytes)
    ensures Head(e) == Head(bytes)
  {
    assert bytes[..|e|][..MIN_ENTRY_SIZE] == bytes[..MIN_ENTRY_SIZE];
    HeadInjective(e, bytes);
  }

  lemma NoMatchWithOtherHead(dict: seq<Entry>, lo: nat, hi: nat, bytes: Data)
    requires lo <= hi <= |dict| && |bytes| >= MIN_ENTRY_SIZE
    requires forall i | lo <= i < hi :: Heads(dict)[i] != Head(bytes)
    ensures Matches(dict[lo..hi], bytes) == []
  {
    forall p | p in dict[lo..hi] ensures !IsPrefix(p.first, bytes) {
      var i :| lo <= i < hi && dict[i] == p;
      assert Heads(dict)[i] == Head(p.first);
      if IsPrefix(p.first, bytes) {
        MatchHasHead(p.first, bytes);
      }
    }
    NoMatches(dict[lo..hi], bytes);
  }

  /** The scan sees the run of entries with the head of the query, up to the capacity. */
  lemma {:induction false} ScanIsRun(dict: seq<Entry>, i: nat, bytes: Data, room: nat)
    requires i <= |dict| && |bytes| >= MIN_ENTRY_SIZE
    ensures ScanFrom(dict, i, bytes, room) == Take(Matches(dict[i..RunEnd(Heads(dict), Head(bytes), i)], bytes), room)
    decreases |dict| - i
  {
    var m := RunEnd(Heads(dict), Head(bytes), i);
    if i < |dict| {
      HeadInjective(dict[i].first, bytes);
      if m == i {
        assert dict[i..m] == [];
      } else if room > 0 {
        ScanIsRun(dict, i + 1, bytes, if IsPrefix(dict[i].first, bytes) then room - 1 else room);
        assert RunEnd(Heads(dict), Head(bytes), i + 1) == m;
        TakeStep(dict, i, m, bytes, room);
      }
    }
  }

  lemma TakeStep(dict: seq<Entry>, i: nat, m: nat, bytes: Data, room: nat)
    requires i < m <= |dict| && room > 0
    ensures Take(Matches(dict[i..m], bytes), room) ==
            if IsPrefix(dict[i].first, bytes) then [dict[i].second] + Take(Matches(dict[i + 1..m], bytes), room - 1)
            else Take(Matches(dict[i + 1..m], bytes), room)
  {
    MatchesStep(dict, i, m, bytes);
    TakeCons(dict[i].second, Matches(dict[i + 1..m], bytes), room);
  }

  lemma MatchesStep(dict: seq<Entry>, i: nat, m: nat, bytes: Data)
    requires i < m <= |dict|
    ensures Matches(dict[i..m], bytes) ==
            (if IsPrefix(dict[i].first, bytes) then [dict[i].second] else []) + Matches(dict[i + 1..m], bytes)
  {
    assert dict[i..m][1..] == dict[i + 1..m];
  }

  lemma TakeCons(x: Data, s: seq<Data>, n: nat)
    requires n > 0
    ensures Take([x] + s, n) == [x] + Take(s, n - 1)
  {
  }

  /** The lookup and what it leaves out: the matches before and after the run. */
  lemma LookupIsRun(dict: seq<Entry>, bytes: Data, capacity: nat) returns (k: nat, m: nat)
    requires |bytes| >= MIN_ENTRY_SIZE
    ensures k == Bisect(Heads(dict), Head(bytes), 0, |dict|) && m == RunEnd(Heads(dict), Head(bytes), k)
    ensures Lookup(dict, bytes, capacity) == Take(Matches(dict[k..m], bytes), capacity)
    ensures Matches(dict, bytes) == Matches(dict[..k], bytes) + Matches(dict[k..m], bytes) + Matches(dict[m..], bytes)
  {
    k := Bisect(Heads(dict), Head(bytes), 0, |dict|);
    m := RunEnd(Heads(dict), Head(bytes), k);
    ScanIsRun(dict, k, bytes, capacity);
    MatchesSplit(dict, m, bytes);
    MatchesSplit(dict[..m], k, bytes);
    assert dict[..m][..k] == dict[..k] && dict[..m][k..] == dict[k..m];
  }

  /** Whatever the order of the dictionary, only partners of matching entries are
      suggested. */
  lemma LookupSound(dict: seq<Entry>, bytes: Data, capacity: nat)
    ensures forall s <- Lookup(dict, bytes, capacity) :: s in Matches(dict, bytes)
    ensures |Lookup(dict, bytes, capacity)| <= capacity
  {
    if |bytes| >= MIN_ENTRY_SIZE {
      var k, m := LookupIsRun(dict, bytes, capacity);
    }
  }

  /** In a dictionary whose heads ascend the lookup is the linear scan, cut at the capacity. */
  lemma LookupIsLinearScan(dict: seq<Entry>, bytes: Data, capacity: nat)
    requires HeadsAscend(dict)
    ensures Lookup(dict, bytes, capacity) == Take(Matches(dict, bytes), capacity)
  {
    if |bytes| < MIN_ENTRY_SIZE {
      NoMatches(dict, bytes);
    } else {
      var k, m := LookupIsRun(dict, bytes, capacity);
      NoMatchOutsideRun(dict, bytes, k, m);
      assert [] + Matches(dict[k..m], bytes) + [] == Matches(dict[k..m], bytes);
    }
  }

  lemma NoMatchOutsideRun(dict: seq<Entry>, bytes: Data, k: nat, m: nat)
    requires HeadsAscend(dict) && |bytes| >= MIN_ENTRY_SIZE
    requires k == Bisect(Heads(dict), Head(bytes), 0, |dict|) && m == RunEnd(Heads(dict), Head(bytes), k)
    ensures Matches(dict[..k], bytes) == [] && Matches(dict[m..], bytes) == []
  {
    OthersDiffer(Heads(dict), Head(bytes), k, m);
    assert dict[0..k] == dict[..k] && dict[m..|dict|] == dict[m..];
    assert Matches(dict[..k], bytes) == [] by {
      NoMatchWithOtherHead(dict, 0, k, bytes);
    }
    assert Matches(dict[m..], bytes) == [] by {
      NoMatchWithOtherHead(dict, m, |dict|, bytes);
    }
  }

  lemma OthersDiffer(heads: seq<nat>, x: nat, k: nat, m: nat)
    requires Ascending(heads) && k == Bisect(heads, x, 0, |heads|) && m == RunEnd(heads, x, k)
    ensures forall i | 0 <= i < |heads| && (i < k || m <= i) :: heads[i] != x
  {
    BisectAscending(heads, x, 0, |heads|);
  }

  /** Every query gets what the linear scan gives it. */
  ghost predicate Complete(dict: seq<Entry>) {
    forall bytes: Data, capacity: nat :: Lookup(dict, bytes, capacity) == Take(Matches(dict, bytes), capacity)
  }

  /** A complete lookup of an entry's own bytes finds the entry in the run it scans. */
  lemma CompleteFinds(dict: seq<Entry>, j: nat)
    requires Complete(dict) && j < |dict|
    ensures Found(Heads(dict), 0, |dict|, j)
  {
    var bytes := dict[j].first;
    var k, m := LookupIsRun(dict, bytes, |dict|);
    if j < k {
      MatchPresent(dict[..k], dict[j], bytes);
    } else if j >= m {
      MatchPresent(dict[m..], dict[j], bytes);
    }
    MatchesBound(dict, bytes);
    MatchesBound(dict[k..m], bytes);
    NothingElse(dict, bytes, k, m);
  }

  lemma MatchPresent(dict: seq<Entry>, p: Entry, bytes: Data)
    requires p in dict && IsPrefix(p.first, bytes)
    ensures Matches(dict, bytes) != []
  {
    MatchesExact(dict, bytes, p.second);
  }

  lemma NothingElse(dict: seq<Entry>, bytes: Data, k: nat, m: nat)
    requires Complete(dict) && k <= m <= |dict|
    requires Lookup(dict, bytes, |dict|) == Take(Matches(dict[k..m], bytes), |dict|)
    requires Matches(dict, bytes) == Matches(dict[..k], bytes) + Matches(dict[k..m], bytes) + Matches(dict[m..], bytes)
    requires |Matches(dict, bytes)| <= |dict|
    ensures Matches(dict[..k], bytes) == [] && Matches(dict[m..], bytes) == []
  {
    var all, part := Matches(dict, bytes), Matches(dict[k..m], bytes);
    assert Lookup(dict, bytes, |dict|) == Take(all, |dict|) == all;
    assert |part| <= |all|;
    assert part == all;
  }

  lemma {:induction false} MatchesBound(dict: seq<Entry>, bytes: Data)
    ensures |Matches(dict, bytes)| <= |dict|
  {
    if dict != [] {
      MatchesBound(dict[1..], bytes);
    }
  }

  /** The lookup agrees with the linear scan on all queries exactly when the entries are
      in order as far as their first two bytes go. */
  lemma LookupComplete(dict: seq<Entry>)
    ensures Complete(dict) <==> HeadsAscend(dict)
  {
    if HeadsAscend(dict) {
      forall bytes: Data, capacity: nat ensures Lookup(dict, bytes, capacity) == Take(Matches(dict, bytes), capacity) {
        LookupIsLinearScan(dict, bytes, capacity);
      }
    }
    if Complete(dict) {
      forall j: nat | j < |dict| ensures Found(Heads(dict), 0, |dict|, j) {
        CompleteFinds(dict, j);
      }
      FoundMeansAscending(Heads(dict), 0, |dict|);
    }
  }

  // ------------------------------------------------------ malformed metadata

  /** The comparisons that are kept were observed in an order that needs no sorting:
      each with the smaller head first, and none below one before it. */
  predicate PairsAscend(pairs: seq<Pair>) {
    && (forall p <- pairs | Storable(p) :: Head(p.first) <= Head(p.second))
    && forall i, j | 0 <= i < j < |pairs| && Storable(pairs[i]) && Storable(pairs[j]) ::
         Head(pairs[i].second) <= Head(pairs[j].first)
  }

  lemma HeadsAscendSnoc(dict: seq<Entry>, e: Entry)
    ensures HeadsAscend(dict + [e]) <==> HeadsAscend(dict) && forall d <- dict :: Head(d.first) <= Head(e.first)
  {
    var all, n := Heads(dict + [e]), |dict|;
    assert forall i | 0 <= i < n :: all[i] == Heads(dict)[i];
    assert all[n] == Head(e.first);
    if HeadsAscend(dict + [e]) {
      forall d | d in dict ensures Head(d.first) <= Head(e.first) {
        var i :| 0 <= i < n && dict[i] == d;
        assert all[i] <= all[n];
      }
    }
  }

  lemma HeadsAscendTwo(dict: seq<Entry>, e1: Entry, e2: Entry)
    ensures HeadsAscend(dict + [e1] + [e2]) <==>
            HeadsAscend(dict) && (forall d <- dict :: Head(d.first) <= Head(e1.first)) && Head(e1.first) <= Head(e2.first)
  {
    HeadsAscendSnoc(dict, e1);
    HeadsAscendSnoc(dict + [e1], e2);
    assert e1 in dict + [e1] && forall d <- dict :: d in dict + [e1];
  }

  lemma {:induction false} OrientedHeadsAscend(pairs: seq<Pair>)
    ensures HeadsAscend(Oriented(pairs)) <==> PairsAscend(pairs)
  {
    if pairs != [] {
      var n := |pairs| - 1;
      OrientedHeadsAscend(pairs[..n]);
      OrientedAscendsSnoc(pairs[..n], pairs[n]);
      PairsAscendSnoc(pairs[..n], pairs[n]);
      assert pairs == pairs[..n] + [pairs[n]];
    }
  }

  lemma OrientedAscendsSnoc(init: seq<Pair>, p: Pair)
    requires HeadsAscend(Oriented(init)) <==> PairsAscend(init)
    ensures HeadsAscend(Oriented(init + [p])) <==> PairsAscend(init) && (Storable(p) ==> Follows(init, p))
  {
    assert (init + [p])[..|init|] == init;
    if !Storable(p) {
      assert Oriented(init + [p]) == Oriented(init);
    } else {
      var dict, e1: Entry, e2: Entry := Oriented(init), Pair(p.first, p.second), Pair(p.second, p.first);
      assert Oriented(init + [p]) == dict + [e1] + [e2];
      HeadsAscendTwo(dict, e1, e2);
      if PairsAscend(init) {
        OrientedBelow(init, Head(p.first));
      }
    }
  }

  /** p can come after the pairs without sorting. */
  predicate Follows(init: seq<Pair>, p: Pair)
    requires Storable(p)
  {
    Head(p.first) <= Head(p.second) && forall q <- init | Storable(q) :: Head(q.second) <= Head(p.first)
  }

  lemma PairsAscendSnoc(init: seq<Pair>, p: Pair)
    ensures PairsAscend(init + [p]) <==> PairsAscend(init) && (Storable(p) ==> Follows(init, p))
  {
    var all, n := init + [p], |init|;
    assert all[n] == p && forall i | 0 <= i < n :: all[i] == init[i];
    if PairsAscend(all) {
      assert forall q <- init :: q in all;
      assert p in all;
      forall q | q in init && Storable(q) && Storable(p) ensures Head(q.second) <= Head(p.first) {
        var i :| 0 <= i < n && init[i] == q;
        assert all[i] == q;
      }
    }
  }

  lemma OrientedBelow(pairs: seq<Pair>, x: nat)
    requires PairsAscend(pairs)
    ensures (forall d <- Oriented(pairs) :: Head(d.first) <= x) <==>
            (forall q <- pairs | Storable(q) :: Head(q.second) <= x)
  {
    forall e: Entry ensures e in Oriented(pairs) <==> e in pairs || Pair(e.second, e.first) in pairs {
      OrientedExact(pairs, e);
    }
    if forall d <- Oriented(pairs) :: Head(d.first) <= x {
      forall q | q in pairs && Storable(q) ensures Head(q.second) <= x {
        var e: Entry := Pair(q.second, q.first);
        assert e in Oriented(pairs);
      }
    }
  }

  /** The dictionary SetFromMetadata leaves. */
  function DictionaryOf(data: Data): seq<Entry> {
    var d := Decode(data);
    if d.ok then Sort(Oriented(d.pairs)) else Oriented(d.pairs)
  }

  /** After any metadata, well-formed or not, the lookup is complete exactly when the
      metadata decodes or the comparisons before the malformed entry need no sorting. */
  lemma CompleteAfterMetadata(data: Data)
    ensures Complete(DictionaryOf(data)) <==> Decode(data).ok || PairsAscend(Decode(data).pairs)
  {
    var found := Oriented(Decode(data).pairs);
    LookupComplete(DictionaryOf(data));
    OrientedHeadsAscend(Decode(data).pairs);
    SortSorts(found);
    SortedHeadsAscend(Sort(found));
  }

  /** A failing case: one comparison with the larger operand first, and a malformed entry.
      The smaller operand has no suggestion. */
  lemma MalformedMetadataMisses(capacity: nat)
    ensures var metadata := EncodePair(Pair([5, 5], [1, 1])) + [1];
            var dict := DictionaryOf(metadata);
            && !Decode(metadata).ok
            && Matches(dict, [1, 1]) == [[5, 5]]
            && Lookup(dict, [1, 1], capacity) == []
  {
    var p := Pair([5, 5], [1, 1]);
    DecodeCons(p, [1]);
    assert Decode([1]) == Decoded(false, []);
    assert [p] + [] == [p];
    assert Oriented([p]) == [Pair([5, 5], [1, 1]), Pair([1, 1], [5, 5])] by {
      assert [p][..0] == [];
    }
    var dict := Oriented([p]);
    MatchesExact(dict[1..], [1, 1], [5, 5]);
    assert dict[1..] == [Pair([1, 1], [5, 5])] && dict[1..][1..] == [];
    assert Heads(dict) == [0x505, 0x101];
    assert Bisect(Heads(dict), 0x101, 0, 1) == 0;
    assert Bisect(Heads(dict), 0x101, 0, 2) == 0;
    HeadInjective(dict[0].first, [1, 1]);
  }

  lemma OrientedStep(calls: seq<Pair>, i: nat)
    requires i < |calls|
    ensures Oriented(calls[..i + 1]) == Oriented(calls[..i]) +
            if Storable(calls[i]) then [Pair(calls[i].first, calls[i].second), Pair(calls[i].second, calls[i].first)]
            else []
  {
    assert calls[..i + 1][..i] == calls[..i];
  }

  /** From the appended comparisons to the suggestions: the lookup returns, up to
      its capacity, the partners of all entries of size 2 to 128, in both
      orientations, that are prefixes of the query. */
  method AppendAndSuggest(pairs: seq<Pair>, bytes: Data, capacity: nat) returns (suggestions: seq<Data>)
    requires forall p <- pairs :: Encodable(p)
    ensures suggestions == Take(Matches(Sort(Oriented(pairs)), bytes), capacity)
  {
    var metadata := Append(pairs);
    DecodeEncode(pairs);
    var dictionary := new CmpDictionary();
    var ok := dictionary.SetFromMetadata(metadata);
    SortSorts(Oriented(pairs));
    SortedHeadsAscend(Sort(Oriented(pairs)));
    suggestions := dictionary.SuggestReplacement(bytes, [], capacity);
  }

  lemma SuggestionsExact(pairs: seq<Pair>, bytes: Data, s: Data)
    ensures var all := Matches(Sort(Oriented(pairs)), bytes);
            s in all <==> exists a: Data :: IsPrefix(a, bytes) && 2 <= |a| == |s| <= 128 && (Pair(a, s) in pairs || Pair(s, a) in pairs)
  {
    var dict := Sort(Oriented(pairs));
    SortSorts(Oriented(pairs));
    MatchesExact(dict, bytes, s);
    forall q: Entry ensures q in dict <==> q in pairs || Pair(q.second, q.first) in pairs {
      OrientedExact(pairs, q);
      assert q in dict <==> q in multiset(dict);
    }
    if a: Data :| IsPrefix(a, bytes) && Storable(Pair(a, s)) && (Pair(a, s) in pairs || Pair(s, a) in pairs) {
      var q: Entry := Pair(a, s);
      assert q in dict;
    }
  }
}
