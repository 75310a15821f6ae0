/** The stream of tagged blobs the runner writes for a batch, and the parser that
    reads it back, whole or cut off anywhere. */
module RunnerResults {
  import opened Bytes
  import opened Wrappers

  datatype Blob = Blob(tag: nat, data: seq<U8>)

  const FEATURES: nat := 1
  const DISPATCHER_FEATURES: nat := 2
  const INPUT_BEGIN: nat := 3
  const INPUT_END: nat := 4
  const STATS: nat := 5
  const METADATA: nat := 6

  const USER_DOMAINS_BEGIN: nat := 12 * 0x800_0000

  datatype Stats = Stats(prep: U64, exec: U64, post: U64, rss: U64)

  datatype ExecutionResult = ExecutionResult(features: seq<U64>, metadata: seq<U8>, stats: Stats)

  const EMPTY: ExecutionResult := ExecutionResult([], [], Stats(0, 0, 0, 0))

  // ------------------------------------------------------------------- bytes

  function EncodeWords(ws: seq<U64>): (bs: seq<U8>)
    ensures |bs| == 8 * |ws|
  {
    if ws == [] then [] else ToBytes(ws[0], 8) + EncodeWords(ws[1..])
  }

  /** memcpy into |bs| / 8 words; an incomplete last word is dropped. */
  function DecodeWords(bs: seq<U8>): (ws: seq<U64>)
    ensures |ws| == |bs| / 8
  {
    if |bs| < 8 then []
    else
      WordBound(bs[..8]);
      Power256Of8();
      [LittleEndian(bs[..8])] + DecodeWords(bs[8..])
  }

  lemma {:induction false} WordsRoundTrip(ws: seq<U64>)
    ensures DecodeWords(EncodeWords(ws)) == ws
  {
    if ws != [] {
      Power256Of8();
      WordRoundTrip(ws[0], 8);
      WordsRoundTrip(ws[1..]);
      var bs := EncodeWords(ws);
      assert bs[..8] == ToBytes(ws[0], 8) && bs[8..] == EncodeWords(ws[1..]);
    }
  }

  function EncodeStats(s: Stats): seq<U8> { EncodeWords([s.prep, s.exec, s.post, s.rss]) }

  function DecodeStats(bs: seq<U8>): Stats
    requires |bs| == 32
  {
    var ws := DecodeWords(bs);
    Stats(ws[0], ws[1], ws[2], ws[3])
  }

  /** The 32-bit features of the dispatcher, mapped into the user domains. */
  function DecodeDispatcher(bs: seq<U8>): seq<U64> {
    if |bs| < 4 then []
    else [LittleEndian(bs[..4]) % 0x8000_0000 + USER_DOMAINS_BEGIN] + DecodeDispatcher(bs[4..])
  }

  /** The i-th word is read from its own eight bytes. */
  lemma {:induction false} DecodeWordsAt(bs: seq<U8>, i: nat)
    requires 8 * i + 8 <= |bs|
    ensures DecodeWords(bs)[i] == LittleEndian(bs[8 * i..8 * i + 8])
  {
    if i > 0 {
      DecodeWordsAt(bs[8..], i - 1);
      assert bs[8..][8 * (i - 1)..8 * (i - 1) + 8] == bs[8 * i..8 * i + 8];
    }
  }

  /** The i-th dispatcher feature is read from its own four bytes and reduced to the
      user domains, the sixteen domains from the twelfth on. */
  lemma {:induction false} DecodeDispatcherAt(bs: seq<U8>, i: nat)
    ensures |DecodeDispatcher(bs)| == |bs| / 4
    ensures 4 * i + 4 <= |bs| ==>
              var f := DecodeDispatcher(bs)[i];
              && f == 12 * 0x800_0000 + LittleEndian(bs[4 * i..4 * i + 4]) % (16 * 0x800_0000)
              && 12 <= f / 0x800_0000 < 28
  {
    if |bs| >= 4 {
      DecodeDispatcherAt(bs[4..], if i > 0 then i - 1 else 0);
      if 4 * i + 4 <= |bs| && i > 0 {
        assert bs[4..][4 * (i - 1)..4 * (i - 1) + 4] == bs[4 * i..4 * i + 4];
      }
    }
  }

  lemma DecodeStatsAt(bs: seq<U8>)
    requires |bs| == 32
    ensures var s := DecodeStats(bs);
            && s.prep == LittleEndian(bs[..8]) && s.exec == LittleEndian(bs[8..16])
            && s.post == LittleEndian(bs[16..24]) && s.rss == LittleEndian(bs[24..32])
  {
    DecodeWordsAt(bs, 0);
    DecodeWordsAt(bs, 1);
    DecodeWordsAt(bs, 2);
    DecodeWordsAt(bs, 3);
    assert bs[0..8] == bs[..8];
  }

  // ------------------------------------------------------------------ parser

  /** The parser's state: `current` is the result being filled, if any. */
  datatype Parser = Parser(results: seq<ExecutionResult>, begins: nat, ends: nat, current: Option<nat>)

  predicate Ok(p: Parser) {
    && p.begins <= |p.results|
    && (p.current.None? ==> p.begins == p.ends)
    && (p.current.Some? ==> p.current.value == p.ends == p.begins - 1)
  }

  /** One iteration of the loop; None is the parser giving up. */
  function Step(p: Parser, b: Blob): (r: Option<Parser>)
    requires Ok(p)
    ensures r.Some? ==> Ok(r.value) && |r.value.results| == |p.results|
  {
    if b.tag == INPUT_BEGIN then
      if p.begins != p.ends || p.begins + 1 > |p.results| then None
      else Some(Parser(p.results[p.ends := EMPTY], p.begins + 1, p.ends, Some(p.ends)))
    else if b.tag == INPUT_END then
      if p.ends + 1 != p.begins then None else Some(p.(ends := p.ends + 1, current := None))
    else if b.tag == METADATA then
      if p.current.None? then None else Some(Fill(p, Current(p).(metadata := b.data)))
    else if b.tag == STATS then
      if p.current.None? || |b.data| != 32 then None else Some(Fill(p, Current(p).(stats := DecodeStats(b.data))))
    else if b.tag == FEATURES then
      if p.current.None? then None else Some(Fill(p, Current(p).(features := DecodeWords(b.data))))
    else if b.tag == DISPATCHER_FEATURES then
      if p.current.None? then None
      else Some(Fill(p, Current(p).(features := Current(p).features + DecodeDispatcher(b.data))))
    else Some(p)
  }

  function Current(p: Parser): ExecutionResult
    requires Ok(p) && p.current.Some?
  {
    p.results[p.current.value]
  }

  function Fill(p: Parser, r: ExecutionResult): (p': Parser)
    requires Ok(p) && p.current.Some?
    ensures Ok(p') && |p'.results| == |p.results|
  {
    p.(results := p.results[p.current.value := r])
  }

  function Parse(p: Parser, blobs: seq<Blob>): (r: Option<Parser>)
    requires Ok(p)
    ensures r.Some? ==> Ok(r.value) && |r.value.results| == |p.results|
  {
    if blobs == [] then Some(p)
    else
      var before := Parse(p, blobs[..|blobs| - 1]);
      if before.None? then None else Step(before.value, blobs[|blobs| - 1])
  }

  /** The blobs up to the first invalid one, which ends the stream. */
  function Valid(blobs: seq<Blob>): seq<Blob> {
    if blobs == [] || blobs[0].tag == 0 then [] else [blobs[0]] + Valid(blobs[1..])
  }

  lemma {:induction false} ValidExact(blobs: seq<Blob>)
    ensures Valid(blobs) <= blobs && forall b <- Valid(blobs) :: b.tag != 0
    ensures |Valid(blobs)| < |blobs| ==> blobs[|Valid(blobs)|].tag == 0
  {
    if blobs != [] && blobs[0].tag != 0 {
      ValidExact(blobs[1..]);
      assert blobs == [blobs[0]] + blobs[1..];
    }
  }

  // -------------------------------------------- what a stream means, any stream

  /** How many blobs carry the tag. */
  function Count(blobs: seq<Blob>, tag: nat): nat {
    if blobs == [] then 0 else Count(blobs[..|blobs| - 1], tag) + if blobs[|blobs| - 1].tag == tag then 1 else 0
  }

  /** What the parser demands of the i-th blob: an input begins (3) between inputs and
      while there is room, and ends (4), or has features (1, 2), statistics (5) of
      the right size or metadata (6), only while it is open.  Other tags are free. */
  predicate Welcome(blobs: seq<Blob>, i: nat, size: nat)
    requires i < |blobs|
  {
    var begins, ends, b := Count(blobs[..i], 3), Count(blobs[..i], 4), blobs[i];
    && (b.tag == 3 ==> begins == ends && begins < size)
    && (b.tag in {1, 2, 4, 5, 6} ==> begins == ends + 1)
    && (b.tag == 5 ==> |b.data| == 32)
  }

  predicate WellFormed(blobs: seq<Blob>, size: nat) { forall i | 0 <= i < |blobs| :: Welcome(blobs, i, size) }

  /** The blobs that follow the beginning of input k and precede the next one. */
  function Segment(blobs: seq<Blob>, k: nat): seq<Blob> {
    if blobs == [] then []
    else
      var init, b := blobs[..|blobs| - 1], blobs[|blobs| - 1];
      Segment(init, k) + if b.tag != 3 && Count(init, 3) == k + 1 then [b] else []
  }

  function LastMetadata(segment: seq<Blob>): seq<U8> {
    if segment == [] then []
    else
      var b := segment[|segment| - 1];
      if b.tag == 6 then b.data else LastMetadata(segment[..|segment| - 1])
  }

  function LastStats(segment: seq<Blob>): Stats {
    if segment == [] then Stats(0, 0, 0, 0)
    else
      var b := segment[|segment| - 1];
      if b.tag == 5 && |b.data| == 32 then DecodeStats(b.data) else LastStats(segment[..|segment| - 1])
  }

  /** The features of the last features blob and of the dispatcher blobs after it. */
  function AllFeatures(segment: seq<Blob>): seq<U64> {
    if segment == [] then []
    else
      var init, b := segment[..|segment| - 1], segment[|segment| - 1];
      if b.tag == 1 then DecodeWords(b.data)
      else if b.tag == 2 then AllFeatures(init) + DecodeDispatcher(b.data)
      else AllFeatures(init)
  }

  function ResultOf(segment: seq<Blob>): ExecutionResult {
    ExecutionResult(AllFeatures(segment), LastMetadata(segment), LastStats(segment))
  }

  /** The k-th result after reading: that of its segment, or untouched. */
  function ResultAt(blobs: seq<Blob>, start: seq<ExecutionResult>, k: nat): ExecutionResult
    requires k < |start|
  {
    if k < Count(blobs, 3) then ResultOf(Segment(blobs, k)) else start[k]
  }

  ghost predicate Means(p: Parser, blobs: seq<Blob>, start: seq<ExecutionResult>) {
    && |p.results| == |start|
    && p.begins == Count(blobs, 3) && p.ends == Count(blobs, 4)
    && forall k | 0 <= k < |start| :: p.results[k] == ResultAt(blobs, start, k)
  }

  /** A stream is accepted exactly when it is well formed, and then every result is
      that of its own segment and every count is that of the tags. */
  lemma {:induction false} ParseMeans(start: seq<ExecutionResult>, blobs: seq<Blob>)
    ensures Ok(Parser(start, 0, 0, None))
    ensures var parsed := Parse(Parser(start, 0, 0, None), blobs);
            && (parsed.Some? <==> WellFormed(blobs, |start|))
            && (parsed.Some? ==> Means(parsed.value, blobs, start))
  {
    if blobs != [] {
      var init, n := blobs[..|blobs| - 1], |blobs| - 1;
      var before := Parse(Parser(start, 0, 0, None), init);
      ParseMeans(start, init);
      WellFormedSnoc(blobs, |start|);
      if before.Some? {
        StepMeans(before.value, init, blobs[n], start);
        assert blobs == init + [blobs[n]];
      }
    }
  }

  lemma WellFormedSnoc(blobs: seq<Blob>, size: nat)
    requires blobs != []
    ensures WellFormed(blobs, size) <==>
            WellFormed(blobs[..|blobs| - 1], size) && Welcome(blobs, |blobs| - 1, size)
  {
    var n := |blobs| - 1;
    forall i | 0 <= i < n ensures Welcome(blobs, i, size) <==> Welcome(blobs[..n], i, size) {
      assert blobs[..n][..i] == blobs[..i];
    }
  }

  lemma StepMeans(p: Parser, init: seq<Blob>, b: Blob, start: seq<ExecutionResult>)
    requires Ok(p) && Means(p, init, start)
    ensures Step(p, b).Some? <==> Welcome(init + [b], |init|, |start|)
    ensures Step(p, b).Some? ==> Means(Step(p, b).value, init + [b], start)
  {
    var blobs := init + [b];
    assert blobs[..|init|] == init;
    if Step(p, b).Some? {
      var q := Step(p, b).value;
      forall k | 0 <= k < |start| ensures q.results[k] == ResultAt(blobs, start, k) {
        StepMeansAt(p, init, b, start, k);
      }
    }
  }

  lemma StepMeansAt(p: Parser, init: seq<Blob>, b: Blob, start: seq<ExecutionResult>, k: nat)
    requires Ok(p) && Means(p, init, start) && Step(p, b).Some? && k < |start|
    ensures Step(p, b).value.results[k] == ResultAt(init + [b], start, k)
  {
    assert p.results[k] == ResultAt(init, start, k);
    StepAt(p, b, k);
    SegmentSnoc(init, b, k);
    if k + 1 == p.begins && b.tag != 3 {
      assert Segment(init + [b], k) == Segment(init, k) + [b];
    } else {
      assert Segment(init + [b], k) == Segment(init, k);
    }
  }

  /** The next blob of an input moves its result as it moves its segment. */
  lemma SegmentSnoc(init: seq<Blob>, b: Blob, k: nat)
    ensures Count(init + [b], 3) == Count(init, 3) + if b.tag == 3 then 1 else 0
    ensures k >= Count(init, 3) ==> Segment(init, k) == []
    ensures Segment(init + [b], k) == Segment(init, k) + if b.tag != 3 && Count(init, 3) == k + 1 then [b] else []
    ensures (b.tag == 5 ==> |b.data| == 32) ==> ResultOf(Segment(init, k) + [b]) == Taken(ResultOf(Segment(init, k)), b)
    ensures ResultOf([]) == EMPTY
  {
    assert (init + [b])[..|init|] == init;
    NoSegment(init, k);
    var s := Segment(init, k) + [b];
    assert s[..|s| - 1] == Segment(init, k);
  }

  function Taken(r: ExecutionResult, b: Blob): ExecutionResult
    requires b.tag == 5 ==> |b.data| == 32
  {
    if b.tag in {1, 2, 5, 6} then Absorb(r, b) else r
  }

  lemma {:induction false} NoSegment(blobs: seq<Blob>, k: nat)
    ensures k >= Count(blobs, 3) ==> Segment(blobs, k) == []
  {
    if blobs != [] {
      NoSegment(blobs[..|blobs| - 1], k);
    }
  }

  /** One step touches only the input that is open. */
  lemma StepAt(p: Parser, b: Blob, k: nat)
    requires Ok(p) && Step(p, b).Some? && k < |p.results|
    ensures Step(p, b).value.results[k] ==
            if b.tag == 3 then (if k == p.begins then EMPTY else p.results[k])
            else if b.tag in {1, 2, 5, 6} && k + 1 == p.begins then Absorb(p.results[k], b)
            else p.results[k]
  {
  }

  class BatchResult {
    var results: seq<ExecutionResult>
    var numOutputsRead: nat

    constructor (size: nat)
      ensures results == seq(size, _ => EMPTY) && numOutputsRead == 0
    {
      results, numOutputsRead := seq(size, _ => EMPTY), 0;
    }

    /** Reads any stream: it is accepted exactly when it is well formed, and then every
        result is that of its own segment. */
    method Read(blobs: seq<Blob>) returns (ok: bool)
      modifies this
      ensures |results| == |old(results)|
      ensures ok <==> WellFormed(Valid(blobs), |results|)
      ensures ok ==> numOutputsRead == Count(Valid(blobs), 4) <= |results|
      ensures ok ==> forall k | 0 <= k < |results| :: results[k] == ResultAt(Valid(blobs), old(results), k)
      ensures var parsed := Parse(Parser(old(results), 0, 0, None), Valid(blobs));
              && ok == parsed.Some?
              && (ok ==> results == parsed.value.results && numOutputsRead == parsed.value.ends)
              && (!ok ==> numOutputsRead == old(numOutputsRead))
    {
      ParseMeans(results, Valid(blobs));
      ok := ReadBlobs(blobs);
    }

    /** The results vector keeps its size, no index leaves it, and on success the number
        of outputs is at most that size. */
    method ReadBlobs(blobs: seq<Blob>) returns (ok: bool)
      modifies this
      ensures |results| == |old(results)|
      ensures var parsed := Parse(Parser(old(results), 0, 0, None), Valid(blobs));
              && ok == parsed.Some?
              && (ok ==> results == parsed.value.results && numOutputsRead == parsed.value.ends <= |results|)
              && (!ok ==> numOutputsRead == old(numOutputsRead))
    {
      var numBegins, numEnds, current: Option<nat> := 0, 0, None;
      ghost var start := Parser(results, 0, 0, None);
      ghost var valid := Valid(blobs);
      var i := 0;
      while i < |blobs| && blobs[i].tag != 0
        invariant i <= |valid| && i <= |blobs| && valid[i..] == Valid(blobs[i..])
        invariant |results| == |old(results)| && numOutputsRead == old(numOutputsRead)
        invariant Ok(Parser(results, numBegins, numEnds, current))
        invariant Parse(start, valid[..i]) == Some(Parser(results, numBegins, numEnds, current))
      {
        var blob := blobs[i];
        assert valid[i] == valid[i..][0] == blob && valid[i + 1..] == valid[i..][1..] == Valid(blobs[i..][1..]);
        assert blobs[i..][1..] == blobs[i + 1..];
        ParseSnoc(start, valid, i);
        ghost var before := Parser(results, numBegins, numEnds, current);
        var good;
        good, numBegins, numEnds, current := ReadBlob(blob, numBegins, numEnds, current);
        if !good {
          ParseStaysFailed(start, valid, i + 1);
          return false;
        }
        i := i + 1;
      }
      assert valid[..i] == valid;
      numOutputsRead := numEnds;
      return true;
    }

    /** The body of the loop. */
    method ReadBlob(blob: Blob, begins: nat, ends: nat, current: Option<nat>)
      returns (ok: bool, begins': nat, ends': nat, current': Option<nat>)
      requires Ok(Parser(results, begins, ends, current))
      modifies this`results
      ensures |results| == |old(results)|
      ensures Step(Parser(old(results), begins, ends, current), blob) ==
              if ok then Some(Parser(results, begins', ends', current')) else None
    {
      ok, begins', ends', current' := true, begins, ends, current;
      if blob.tag == INPUT_BEGIN {
        if begins' != ends' {
          return false, begins', ends', current';
        }
        begins' := begins' + 1;
        if begins' > |results| {
          return false, begins', ends', current';
        }
        current' := Some(ends');
        results := results[ends' := EMPTY];
        return;
      }
      if blob.tag == INPUT_END {
        ends' := ends' + 1;
        if ends' != begins' {
          return false, begins', ends', current';
        }
        current' := None;
        return;
      }
      if blob.tag == METADATA || blob.tag == STATS || blob.tag == FEATURES || blob.tag == DISPATCHER_FEATURES {
        if current'.None? {
          return false, begins', ends', current';
        }
        if blob.tag == STATS && |blob.data| != 32 {
          return false, begins', ends', current';
        }
        results := results[current'.value := Absorb(results[current'.value], blob)];
      }
    }
  }

  /** What a payload blob does to the result it belongs to. */
  function Absorb(r: ExecutionResult, b: Blob): ExecutionResult
    requires b.tag == STATS ==> |b.data| == 32
  {
    if b.tag == METADATA then r.(metadata := b.data)
    else if b.tag == STATS then r.(stats := DecodeStats(b.data))
    else if b.tag == FEATURES then r.(features := DecodeWords(b.data))
    else r.(features := r.features + DecodeDispatcher(b.data))
  }

  lemma ParseSnoc(p: Parser, blobs: seq<Blob>, i: nat)
    requires Ok(p) && i < |blobs|
    ensures Parse(p, blobs[..i + 1]) ==
            var before := Parse(p, blobs[..i]);
            if before.None? then None else Step(before.value, blobs[i])
  {
    assert blobs[..i + 1][..i] == blobs[..i];
  }

  lemma {:induction false} ParseStaysFailed(p: Parser, blobs: seq<Blob>, i: nat)
    requires Ok(p) && i <= |blobs| && Parse(p, blobs[..i]).None?
    ensures Parse(p, blobs).None?
    decreases |blobs| - i
  {
    if i < |blobs| {
      ParseSnoc(p, blobs, i);
      ParseStaysFailed(p, blobs, i + 1);
    } else {
      assert blobs[..i] == blobs;
    }
  }

  // ------------------------------------------------------------------ writer

  /** What the runner writes for one input. */
  function Tuple(o: ExecutionResult): seq<Blob> {
    [ Blob(INPUT_BEGIN, []),
      Blob(FEATURES, EncodeWords(o.features)),
      Blob(METADATA, o.metadata),
      Blob(STATS, EncodeStats(o.stats)),
      Blob(INPUT_END, []) ]
  }

  function Stream(outputs: seq<ExecutionResult>): (blobs: seq<Blob>)
    ensures |blobs| == 5 * |outputs|
  {
    if outputs == [] then [] else Stream(outputs[..|outputs| - 1]) + Tuple(outputs[|outputs| - 1])
  }

  /** The bytes a blob takes: tag, size and data. */
  function BlobSize(blob: Blob): nat { 16 + |blob.data| }

  function StreamSize(blobs: seq<Blob>): nat {
    if blobs == [] then 0 else StreamSize(blobs[..|blobs| - 1]) + BlobSize(blobs[|blobs| - 1])
  }

  /** The output sequence: appending is refused when the blob does not fit. */
  class BlobSequence {
    const size: nat
    var offset: nat
    var blobs: seq<Blob>

    constructor (size: nat)
      ensures blobs == [] && offset == 0 && this.size == size
    {
      this.size := size;
      offset, blobs := 0, [];
    }

    /** The offset is the size of what was written. */
    predicate Valid()
      reads this
    {
      offset == StreamSize(blobs)
    }

    predicate Fits(blob: Blob)
      reads this
    {
      offset + BlobSize(blob) <= size
    }

    method Write(blob: Blob) returns (ok: bool)
      requires blob.tag != 0
      modifies this
      ensures ok <==> old(Fits(blob)) && old(offset) + 16 + |blob.data| <= size
      ensures blobs == old(blobs) + if ok then [blob] else []
      ensures offset == old(offset) + if ok then BlobSize(blob) else 0
      ensures old(Valid()) ==> Valid()
    {
      if size < offset + 16 || size - offset - 16 < |blob.data| {
        return false;
      }
      offset := offset + 16 + |blob.data|;
      blobs := blobs + [blob];
      assert blobs[..|blobs| - 1] == old(blobs);
      return true;
    }
  }

  /** One input: a prefix of its tuple is written, all of it on success. It stops at the
      first blob that does not fit, or after the first one if the target fails. */
  method WriteTuple(out: BlobSequence, o: ExecutionResult, fails: bool) returns (ok: bool, ghost n: nat)
    modifies out
    ensures n <= 5 && out.blobs == old(out.blobs) + Tuple(o)[..n] && (ok <==> n == 5)
    ensures n < 5 ==> (n == 1 && fails) || !out.Fits(Tuple(o)[n])
    ensures old(out.Valid()) ==> out.Valid()
  {
    ghost var base := out.blobs;
    assert base + Tuple(o)[..0] == base;
    ok := WriteNth(out, o, 0, Blob(INPUT_BEGIN, []), base);
    if !ok {
      return false, 0;
    }
    // The target runs here: it can crash, or set a failure description.
    if fails {
      return false, 1;
    }
    ok := WriteNth(out, o, 1, Blob(FEATURES, EncodeWords(o.features)), base);
    if !ok {
      return false, 1;
    }
    ok := WriteNth(out, o, 2, Blob(METADATA, o.metadata), base);
    if !ok {
      return false, 2;
    }
    ok := WriteNth(out, o, 3, Blob(STATS, EncodeStats(o.stats)), base);
    if !ok {
      return false, 3;
    }
    ok := WriteNth(out, o, 4, Blob(INPUT_END, []), base);
    return ok, if ok then 5 else 4;
  }

  /** Writes the n-th blob of the tuple. */
  method WriteNth(out: BlobSequence, ghost o: ExecutionResult, ghost n: nat, blob: Blob, ghost base: seq<Blob>)
    returns (ok: bool)
    requires n < 5 && blob == Tuple(o)[n] && blob.tag != 0 && out.blobs == base + Tuple(o)[..n]
    modifies out
    ensures out.blobs == base + Tuple(o)[..if ok then n + 1 else n]
    ensures !ok ==> !out.Fits(blob)
    ensures old(out.Valid()) ==> out.Valid()
  {
    PrefixStep(Tuple(o), n, base);
    ok := out.Write(blob);
  }

  lemma PrefixStep<T>(t: seq<T>, n: nat, base: seq<T>)
    requires n < |t|
    ensures base + t[..n] + [t[n]] == base + t[..n + 1]
  {
  }

  /** The runner's loop over the inputs stops at the first tuple that could not be
      completed; `outputs[i]` is what input i produces, and `fails[i]` whether the target
      fails on it.  What it leaves behind is a truncation of the full stream, cut only
      where the target failed or the next blob does not fit. */
  method ExecuteInputs(out: BlobSequence, outputs: seq<ExecutionResult>, fails: seq<bool>)
    requires out.blobs == [] && out.Valid() && |fails| == |outputs|
    modifies out
    ensures out.Valid() && out.blobs <= Stream(outputs)
    ensures var k := |out.blobs|;
            k < 5 * |outputs| ==> (k % 5 == 1 && fails[k / 5]) || !out.Fits(Stream(outputs)[k])
  {
    for i := 0 to |outputs|
      invariant out.Valid() && out.blobs == Stream(outputs[..i])
    {
      var ok, n := WriteTuple(out, outputs[i], fails[i]);
      StreamAt(outputs, i, n);
      if !ok {
        return;
      }
    }
    assert outputs[..|outputs|] == outputs;
  }

  /** Where n blobs of the i-th tuple end in the stream. */
  lemma StreamAt(outputs: seq<ExecutionResult>, i: nat, n: nat)
    requires i < |outputs| && n <= 5
    ensures Stream(outputs[..i]) + Tuple(outputs[i])[..n] <= Stream(outputs)
    ensures n < 5 ==> Stream(outputs)[5 * i + n] == Tuple(outputs[i])[n]
    ensures n == 5 ==> Stream(outputs[..i]) + Tuple(outputs[i])[..n] == Stream(outputs[..i + 1])
  {
    StreamPrefix(outputs, i);
    PrefixAt(Stream(outputs), Stream(outputs[..i]), Tuple(outputs[i]), n);
    StreamNext(outputs, i);
  }

  /** The fixed order of the tags: begin, features, metadata, statistics, end. */
  lemma StreamLayout(outputs: seq<ExecutionResult>, i: nat)
    requires i < |outputs|
    ensures var s, o := Stream(outputs), outputs[i];
            && s[5 * i] == Blob(3, []) && s[5 * i + 4] == Blob(4, [])
            && s[5 * i + 1] == Blob(1, EncodeWords(o.features)) && s[5 * i + 2] == Blob(6, o.metadata)
            && s[5 * i + 3] == Blob(5, EncodeWords([o.stats.prep, o.stats.exec, o.stats.post, o.stats.rss]))
  {
    StreamAt(outputs, i, 0);
    StreamAt(outputs, i, 1);
    StreamAt(outputs, i, 2);
    StreamAt(outputs, i, 3);
    StreamAt(outputs, i, 4);
  }

  lemma PrefixAt<T>(all: seq<T>, a: seq<T>, b: seq<T>, n: nat)
    requires a + b <= all && n <= |b|
    ensures a + b[..n] <= all && (n < |b| ==> all[|a| + n] == b[n]) && (n == |b| ==> b[..n] == b)
  {
    assert n < |b| ==> (a + b)[|a| + n] == b[n];
    assert a + b[..n] == (a + b)[..|a| + n];
  }

  lemma StreamNext(outputs: seq<ExecutionResult>, i: nat)
    requires i < |outputs|
    ensures Stream(outputs[..i + 1]) == Stream(outputs[..i]) + Tuple(outputs[i])
  {
    assert outputs[..i + 1][..i] == outputs[..i];
  }

  lemma {:induction false} StreamPrefix(outputs: seq<ExecutionResult>, i: nat)
    requires i < |outputs|
    ensures Stream(outputs[..i]) + Tuple(outputs[i]) <= Stream(outputs)
  {
    var init := outputs[..|outputs| - 1];
    if i < |init| {
      StreamPrefix(init, i);
      assert init[..i] == outputs[..i];
    } else {
      assert init == outputs[..i];
    }
  }

  // -------------------------------------------------------------- round trip

  lemma {:induction false} ParseConcat(p: Parser, a: seq<Blob>, b: seq<Blob>)
    requires Ok(p) && Parse(p, a).Some?
    ensures Parse(p, a + b) == Parse(Parse(p, a).value, b)
  {
    if b == [] {
      assert a + b == a;
    } else {
      var init := b[..|b| - 1];
      ParseConcat(p, a, init);
      assert (a + b)[..|a + b| - 1] == a + init;
    }
  }

  /** The parser after the complete tuples of `outputs`. */
  function After(outputs: seq<ExecutionResult>, start: seq<ExecutionResult>): Parser
    requires |outputs| <= |start|
  {
    Parser(outputs + start[|outputs|..], |outputs|, |outputs|, None)
  }

  /** The result under construction after `n` blobs of its tuple. */
  function Partial(o: ExecutionResult, n: nat): ExecutionResult {
    ExecutionResult(if n >= 2 then o.features else [], if n >= 3 then o.metadata else [],
                    if n >= 4 then o.stats else EMPTY.stats)
  }

  /** The parser inside the tuple of `o`, after `n` of its blobs. */
  function Inside(p: Parser, o: ExecutionResult, n: nat): Parser
    requires Ok(p) && p.current.None? && p.ends < |p.results|
  {
    if n == 0 then p
    else if n < 5 then Parser(p.results[p.ends := Partial(o, n)], p.begins + 1, p.ends, Some(p.ends))
    else Parser(p.results[p.ends := o], p.begins + 1, p.ends + 1, None)
  }

  lemma StatsRoundTrip(s: Stats)
    ensures |EncodeStats(s)| == 32 && DecodeStats(EncodeStats(s)) == s
  {
    WordsRoundTrip([s.prep, s.exec, s.post, s.rss]);
  }

  lemma TupleStep(p: Parser, o: ExecutionResult, n: nat)
    requires Ok(p) && p.current.None? && p.ends < |p.results| && n < 5
    ensures Ok(Inside(p, o, n)) && Step(Inside(p, o, n), Tuple(o)[n]) == Some(Inside(p, o, n + 1))
  {
    WordsRoundTrip(o.features);
    StatsRoundTrip(o.stats);
    assert Partial(o, 4) == o && Partial(o, 1) == EMPTY;
    UpdateTwice(p.results, p.ends, Partial(o, n), Partial(o, n + 1));
  }

  lemma UpdateTwice<T>(s: seq<T>, i: nat, x: T, y: T)
    requires i < |s|
    ensures s[i := x][i := y] == s[i := y]
  {
  }

  lemma {:induction false} ParseTuple(p: Parser, o: ExecutionResult, n: nat)
    requires Ok(p) && p.current.None? && p.ends < |p.results| && n <= 5
    ensures Parse(p, Tuple(o)[..n]) == Some(Inside(p, o, n))
  {
    if n > 0 {
      ParseTuple(p, o, n - 1);
      TupleStep(p, o, n - 1);
      ParseSnoc(p, Tuple(o), n - 1);
    }
  }

  lemma {:induction false} ParseStream(outputs: seq<ExecutionResult>, start: seq<ExecutionResult>)
    requires |outputs| <= |start|
    ensures Parse(Parser(start, 0, 0, None), Stream(outputs)) == Some(After(outputs, start))
  {
    var p := Parser(start, 0, 0, None);
    if outputs == [] {
      assert After(outputs, start) == p;
    } else {
      var init, o := outputs[..|outputs| - 1], outputs[|outputs| - 1];
      ParseStream(init, start);
      ParseConcat(p, Stream(init), Tuple(o));
      ParseTuple(After(init, start), o, 5);
      assert Tuple(o)[..5] == Tuple(o);
      AfterOneMore(init, o, start);
      assert outputs == init + [o];
    }
  }

  lemma AfterOneMore(init: seq<ExecutionResult>, o: ExecutionResult, start: seq<ExecutionResult>)
    requires |init| < |start|
    ensures Inside(After(init, start), o, 5) == After(init + [o], start)
  {
    assert After(init, start).results[|init| := o] == After(init + [o], start).results;
  }

  lemma StreamCut(outputs: seq<ExecutionResult>, q: nat, n: nat)
    requires q < |outputs| && n <= 5
    ensures Stream(outputs)[..5 * q + n] == Stream(outputs[..q]) + Tuple(outputs[q])[..n]
  {
    StreamPrefix(outputs, q);
    CutPrefix(Stream(outputs), Stream(outputs[..q]), Tuple(outputs[q]), n);
  }

  lemma CutPrefix<T>(all: seq<T>, a: seq<T>, b: seq<T>, n: nat)
    requires a + b <= all && n <= |b|
    ensures all[..|a| + n] == a + b[..n]
  {
    assert all[..|a| + |b|] == a + b;
    assert all[..|a| + n] == all[..|a| + |b|][..|a| + n];
  }

  lemma {:induction false} AllValid(outputs: seq<ExecutionResult>, k: nat)
    requires k <= |Stream(outputs)|
    ensures Valid(Stream(outputs)[..k]) == Stream(outputs)[..k]
  {
    TagsNonZero(outputs);
    ValidWhenTagged(Stream(outputs)[..k]);
  }

  lemma {:induction false} TagsNonZero(outputs: seq<ExecutionResult>)
    ensures forall i :: 0 <= i < |Stream(outputs)| ==> Stream(outputs)[i].tag != 0
  {
    if outputs != [] {
      TagsNonZero(outputs[..|outputs| - 1]);
    }
  }

  lemma {:induction false} ValidWhenTagged(blobs: seq<Blob>)
    requires forall i :: 0 <= i < |blobs| ==> blobs[i].tag != 0
    ensures Valid(blobs) == blobs
  {
    if blobs != [] {
      ValidWhenTagged(blobs[1..]);
    }
  }

  /** The parser after the stream was cut inside tuple `q`, after `n` of its blobs. */
  lemma ParseTruncation(outputs: seq<ExecutionResult>, start: seq<ExecutionResult>, q: nat, n: nat)
    requires |start| == |outputs| && q < |outputs| && n < 5
    ensures Parse(Parser(start, 0, 0, None), Valid(Stream(outputs)[..5 * q + n])) ==
            Some(Inside(After(outputs[..q], start), outputs[q], n))
  {
    var p := Parser(start, 0, 0, None);
    AllValid(outputs, 5 * q + n);
    StreamCut(outputs, q, n);
    ParseStream(outputs[..q], start);
    ParseConcat(p, Stream(outputs[..q]), Tuple(outputs[q])[..n]);
    ParseTuple(After(outputs[..q], start), outputs[q], n);
  }

  lemma ParseWhole(outputs: seq<ExecutionResult>, start: seq<ExecutionResult>)
    requires |start| == |outputs|
    ensures Parse(Parser(start, 0, 0, None), Valid(Stream(outputs)[..5 * |outputs|])) == Some(After(outputs, start))
  {
    AllValid(outputs, 5 * |outputs|);
    ParseStream(outputs, start);
    assert Stream(outputs)[..5 * |outputs|] == Stream(outputs);
  }

  /** Any truncation of the stream is accepted: exactly the complete tuples are
      counted and recovered, byte for byte, and the results of inputs that were not
      begun are untouched. */
  lemma TruncationIsRead(outputs: seq<ExecutionResult>, start: seq<ExecutionResult>, q: nat, n: nat)
    requires |start| == |outputs| && n < 5 && 5 * q + n <= 5 * |outputs|
    ensures var r := Parse(Parser(start, 0, 0, None), Valid(Stream(outputs)[..5 * q + n]));
            && r.Some? && r.value.ends == q
            && r.value.results[..q] == outputs[..q]
            && (forall i :: q < i < |start| || (i == q < |start| && n == 0) ==> r.value.results[i] == start[i])
  {
    if q < |outputs| {
      ParseTruncation(outputs, start, q, n);
    } else {
      ParseWhole(outputs, start);
    }
  }

  /** `std::clamp` in ReportCrash. */
  function SuspectIndex(numOutputsRead: nat, numInputs: nat): nat
    requires numInputs > 0
  {
    if numOutputsRead > numInputs - 1 then numInputs - 1 else numOutputsRead
  }

  /** The suspect is the input that had begun but not ended. */
  lemma SuspectIsTheUnfinishedInput(outputs: seq<ExecutionResult>, start: seq<ExecutionResult>, q: nat, n: nat)
    requires |start| == |outputs| && 0 < n < 5 && 5 * q + n <= 5 * |outputs|
    ensures var r := Parse(Parser(start, 0, 0, None), Valid(Stream(outputs)[..5 * q + n]));
            && r.Some? && r.value.current == Some(q)
            && SuspectIndex(r.value.ends, |outputs|) == q
  {
    ParseTruncation(outputs, start, q, n);
  }

  /** A batch from end to end: of what the runner managed to write, exactly the complete
      tuples are counted and read back. */
  method RunAndRead(capacity: nat, outputs: seq<ExecutionResult>, fails: seq<bool>)
    returns (numRead: nat, results: seq<ExecutionResult>, ghost written: seq<Blob>)
    requires |fails| == |outputs|
    ensures written <= Stream(outputs) && numRead == |written| / 5
    ensures numRead <= |outputs| == |results| && results[..numRead] == outputs[..numRead]
    ensures var k := |written|;
            k < 5 * |outputs| ==>
              (k % 5 == 1 && fails[k / 5]) || StreamSize(written) + BlobSize(Stream(outputs)[k]) > capacity
  {
    var out := new BlobSequence(capacity);
    ExecuteInputs(out, outputs, fails);
    var batch := new BatchResult(|outputs|);
    written := out.blobs;
    assert written == Stream(outputs)[..|written|];
    TruncationIsRead(outputs, batch.results, |written| / 5, |written| % 5);
    var ok := batch.Read(out.blobs);
    assert ok;
    return batch.numOutputsRead, batch.results, written;
  }
}
