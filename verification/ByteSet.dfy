/** Byte sets that are scanned and cleared a word at a time, with and without a
    summary layer, against the plain byte-by-byte scan. */
module ByteSets {
  import opened Bytes

  const WORD: nat := 8
  const SIZE_MULTIPLE: nat := 64

  /** The callbacks of the plain scan: index and value of every non-zero byte. */
  function NonZero(s: seq<U8>, from: nat, to: nat): seq<(nat, U8)>
    requires to <= |s|
    decreases if from < to then to - from else 0
  {
    if from >= to then []
    else if s[from] != 0 then [(from, s[from])] + NonZero(s, from + 1, to)
    else NonZero(s, from + 1, to)
  }

  predicate ZeroIn(s: seq<U8>, from: nat, to: nat)
    requires to <= |s|
  {
    forall i :: from <= i < to ==> s[i] == 0
  }

  /** `t` is `s` with the bytes in [from, to) cleared. */
  predicate Cleared(s: seq<U8>, t: seq<U8>, from: nat, to: nat) {
    |t| == |s| && forall i :: 0 <= i < |s| ==> t[i] == if from <= i < to then 0 else s[i]
  }

  lemma ClearedUnique(s: seq<U8>, t: seq<U8>, u: seq<U8>, from: nat, to: nat)
    requires Cleared(s, t, from, to) && Cleared(s, u, from, to)
    ensures t == u
  {
  }

  lemma {:induction false} NonZeroSplit(s: seq<U8>, a: nat, b: nat, c: nat)
    requires a <= b <= c <= |s|
    ensures NonZero(s, a, c) == NonZero(s, a, b) + NonZero(s, b, c)
    decreases b - a
  {
    if a < b {
      NonZeroSplit(s, a + 1, b, c);
    }
  }

  /** Exactly the non-zero bytes of the range are reported, each with its value. */
  lemma {:induction false} NonZeroExact(s: seq<U8>, from: nat, to: nat, call: (nat, U8))
    requires to <= |s|
    ensures call in NonZero(s, from, to) <==> from <= call.0 < to && s[call.0] == call.1 != 0
    decreases if from < to then to - from else 0
  {
    if from < to {
      NonZeroExact(s, from + 1, to, call);
    }
  }

  /** They are reported in ascending order, so none twice. */
  lemma {:induction false} NonZeroAscends(s: seq<U8>, from: nat, to: nat, i: nat, j: nat)
    requires to <= |s| && i < j < |NonZero(s, from, to)|
    ensures NonZero(s, from, to)[i].0 < NonZero(s, from, to)[j].0
    decreases if from < to then to - from else 0
  {
    var calls, rest := NonZero(s, from, to), NonZero(s, from + 1, to);
    if s[from] == 0 {
      NonZeroAscends(s, from + 1, to, i, j);
    } else if i == 0 {
      assert calls[j] == rest[j - 1] && rest[j - 1] in rest;
      NonZeroExact(s, from + 1, to, calls[j]);
    } else {
      NonZeroAscends(s, from + 1, to, i - 1, j - 1);
    }
  }

  lemma {:induction false} NonZeroOfZeros(s: seq<U8>, from: nat, to: nat)
    requires to <= |s| && ZeroIn(s, from, to)
    ensures NonZero(s, from, to) == []
    decreases if from < to then to - from else 0
  {
    if from < to {
      NonZeroOfZeros(s, from + 1, to);
    }
  }

  /** The scan sees only the range it scans. */
  lemma {:induction false} NonZeroDependsOnRange(s: seq<U8>, t: seq<U8>, from: nat, to: nat)
    requires to <= |s| && to <= |t| && forall i :: from <= i < to ==> s[i] == t[i]
    ensures NonZero(s, from, to) == NonZero(t, from, to)
    decreases if from < to then to - from else 0
  {
    if from < to {
      NonZeroDependsOnRange(s, t, from + 1, to);
    }
  }

  /** The head of a scan is its first non-zero byte. */
  lemma {:induction false} FirstNonZero(s: seq<U8>, from: nat, to: nat)
    requires to <= |s|
    ensures var calls := NonZero(s, from, to);
            && (calls == [] ==> ZeroIn(s, from, to))
            && (calls != [] ==>
                  && from <= calls[0].0 < to && s[calls[0].0] == calls[0].1 != 0
                  && ZeroIn(s, from, calls[0].0) && calls[1..] == NonZero(s, calls[0].0 + 1, to))
    decreases if from < to then to - from else 0
  {
    if from < to {
      FirstNonZero(s, from + 1, to);
    }
  }

  /** Reads, clears and reports the word at `ptr`. */
  method ScanWord(bytes: array<U8>, ptr: nat) returns (calls: seq<(nat, U8)>)
    requires ptr + WORD <= bytes.Length
    modifies bytes
    ensures calls == NonZero(old(bytes[..]), ptr, ptr + WORD)
    ensures Cleared(old(bytes[..]), bytes[..], ptr, ptr + WORD)
  {
    ghost var was := bytes[..];
    var chunk := bytes[ptr..ptr + WORD];
    var word := LittleEndian(chunk);
    calls := [];
    ZeroWord(chunk);
    if word == 0 {
      assert forall i :: ptr <= i < ptr + WORD ==> was[i] == chunk[i - ptr];
      NonZeroOfZeros(was, ptr, ptr + WORD);
      return;
    }
    forall i | ptr <= i < ptr + WORD {
      bytes[i] := 0;
    }
    for pos := 0 to WORD
      invariant Cleared(was, bytes[..], ptr, ptr + WORD)
      invariant calls == NonZero(was, ptr, ptr + pos)
    {
      ByteOfWord(chunk, pos);
      assert chunk[pos] == was[ptr + pos];
      NonZeroSplit(was, ptr, ptr + pos, ptr + pos + 1);
      var value := ByteAt(word, pos);
      if value != 0 {
        calls := calls + [(ptr + pos, value)];
      }
    }
  }

  /** One step of the byte-by-byte loops. */
  method ScanByte(bytes: array<U8>, idx: nat) returns (calls: seq<(nat, U8)>)
    requires idx < bytes.Length
    modifies bytes
    ensures calls == NonZero(old(bytes[..]), idx, idx + 1)
    ensures Cleared(old(bytes[..]), bytes[..], idx, idx + 1)
  {
    calls := [];
    if bytes[idx] != 0 {
      calls := [(idx, bytes[idx])];
      bytes[idx] := 0;
    }
  }

  lemma ScanExtends(was: seq<U8>, now: seq<U8>, next: seq<U8>, from: nat, mid: nat, to: nat)
    requires from <= mid <= to <= |was| && Cleared(was, now, from, mid) && Cleared(now, next, mid, to)
    ensures Cleared(was, next, from, to)
    ensures NonZero(was, from, mid) + NonZero(now, mid, to) == NonZero(was, from, to)
  {
    NonZeroSplit(was, from, mid, to);
    NonZeroDependsOnRange(was, now, mid, to);
  }

  /** The stand-alone scan: bytes up to the first word boundary, whole words, and
      the remaining bytes; `address` is where the buffer lies in memory. */
  method ForEachNonZeroByte(bytes: array<U8>, address: nat) returns (calls: seq<(nat, U8)>)
    modifies bytes
    ensures calls == NonZero(old(bytes[..]), 0, bytes.Length)
    ensures forall i :: 0 <= i < bytes.Length ==> bytes[i] == 0
  {
    ghost var was := bytes[..];
    calls := [];
    var idx := 0;
    var alignment := address % WORD;
    while idx < bytes.Length && alignment != 0
      invariant idx <= bytes.Length && calls == NonZero(was, 0, idx) && Cleared(was, bytes[..], 0, idx)
    {
      ghost var now := bytes[..];
      var more := ScanByte(bytes, idx);
      ScanExtends(was, now, bytes[..], 0, idx, idx + 1);
      calls := calls + more;
      idx, alignment := idx + 1, (alignment + 1) % WORD;
    }
    while idx + WORD - 1 < bytes.Length
      invariant idx <= bytes.Length && calls == NonZero(was, 0, idx) && Cleared(was, bytes[..], 0, idx)
    {
      ghost var now := bytes[..];
      var more := ScanWord(bytes, idx);
      ScanExtends(was, now, bytes[..], 0, idx, idx + WORD);
      calls := calls + more;
      idx := idx + WORD;
    }
    while idx < bytes.Length
      invariant idx <= bytes.Length && calls == NonZero(was, 0, idx) && Cleared(was, bytes[..], 0, idx)
    {
      ghost var now := bytes[..];
      var more := ScanByte(bytes, idx);
      ScanExtends(was, now, bytes[..], 0, idx, idx + 1);
      calls := calls + more;
      idx := idx + 1;
    }
    assert forall i :: 0 <= i < bytes.Length ==> bytes[..][i] == 0;
  }

  /** The flat set. */
  class ConcurrentByteSet {
    const bytes: array<U8>

    constructor (size: nat)
      requires size % SIZE_MULTIPLE == 0
      ensures fresh(bytes) && bytes.Length == size && ZeroIn(bytes[..], 0, size)
    {
      bytes := new U8[size](_ => 0);
    }

    method Set(idx: nat, value: U8)
      requires idx < bytes.Length
      modifies bytes
      ensures bytes[..] == old(bytes[..])[idx := value]
    {
      bytes[idx] := value;
    }

    method SaturatedIncrement(idx: nat)
      requires idx < bytes.Length
      modifies bytes
      ensures bytes[..] == old(bytes[..])[idx := Saturated(old(bytes[idx]))]
    {
      var counter := bytes[idx];
      if counter != 255 {
        bytes[idx] := counter + 1;
      }
    }

    method ForEachNonZeroByte(from: nat, to: nat) returns (calls: seq<(nat, U8)>)
      requires from % SIZE_MULTIPLE == 0 && to % SIZE_MULTIPLE == 0 && to <= bytes.Length
      modifies bytes
      ensures calls == NonZero(old(bytes[..]), from, to)
      ensures Cleared(old(bytes[..]), bytes[..], from, to)
    {
      ghost var was := bytes[..];
      calls := [];
      var ptr := from;
      while ptr < to
        invariant from <= ptr && ptr % WORD == 0 && to % WORD == 0
        invariant from > to ==> ptr == from && calls == [] && bytes[..] == was
        invariant from <= to ==> ptr <= to && calls == NonZero(was, from, ptr) && Cleared(was, bytes[..], from, ptr)
      {
        var more := ScanNext(ptr, from, was);
        calls := calls + more;
        ptr := ptr + WORD;
      }
    }

    /** One word of the scan. */
    method ScanNext(ptr: nat, ghost from: nat, ghost was: seq<U8>) returns (more: seq<(nat, U8)>)
      requires from <= ptr && ptr + WORD <= bytes.Length == |was| && Cleared(was, bytes[..], from, ptr)
      modifies bytes
      ensures Cleared(was, bytes[..], from, ptr + WORD)
      ensures NonZero(was, from, ptr) + more == NonZero(was, from, ptr + WORD)
    {
      ghost var now := bytes[..];
      more := ScanWord(bytes, ptr);
      ScanExtends(was, now, bytes[..], from, ptr, ptr + WORD);
    }
  }

  function Saturated(x: U8): (r: U8)
    ensures x <= r <= x + 1 && (r == x <==> x == 255)
  {
    if x != 255 then x + 1 else x
  }

  /** The two-layer set: a byte of the upper layer summarises RATIO bytes of the
      lower one. */
  class TwoLayerConcurrentByteSet {
    const upper: ConcurrentByteSet
    const lower: ConcurrentByteSet

    function Repr(): set<object> { {upper.bytes, lower.bytes} }

    /** The upper layer covers the lower one. */
    ghost predicate Valid()
      reads Repr()
    {
      && upper.bytes != lower.bytes
      && lower.bytes.Length == RATIO * upper.bytes.Length && upper.bytes.Length % SIZE_MULTIPLE == 0
      && Covers(upper.bytes[..], lower.bytes[..])
    }

    constructor (size: nat)
      requires size % 4096 == 0
      ensures Valid() && fresh(Repr()) && lower.bytes.Length == size && ZeroIn(lower.bytes[..], 0, size)
    {
      LayerBounds(size);
      upper := new ConcurrentByteSet(size / RATIO);
      lower := new ConcurrentByteSet(size);
    }

    method Set(idx: nat, value: U8)
      requires Valid() && idx < lower.bytes.Length
      modifies Repr()
      ensures Valid() && lower.bytes[..] == old(lower.bytes[..])[idx := value]
    {
      upper.Set(idx / RATIO, 1);
      lower.Set(idx, value);
    }

    method SaturatedIncrement(idx: nat)
      requires Valid() && idx < lower.bytes.Length
      modifies Repr()
      ensures Valid() && lower.bytes[..] == old(lower.bytes[..])[idx := Saturated(old(lower.bytes[idx]))]
    {
      upper.Set(idx / RATIO, 1);
      lower.SaturatedIncrement(idx);
    }

    /** Scans one lower region, when the regions skipped before it are empty. */
    method ScanRegion(region: nat, ghost was: seq<U8>, ghost from: nat, ghost done: nat) returns (more: seq<(nat, U8)>)
      requires from <= done <= region * RATIO && region * RATIO + RATIO <= lower.bytes.Length == |was|
      requires Cleared(was, lower.bytes[..], from, done) && ZeroIn(was, done, region * RATIO)
      modifies lower.bytes
      ensures Cleared(was, lower.bytes[..], from, region * RATIO + RATIO)
      ensures NonZero(was, from, done) + more == NonZero(was, from, region * RATIO + RATIO)
    {
      var begin := region * RATIO;
      ghost var now := lower.bytes[..];
      SkipZeros(was, now, from, done, begin);
      more := lower.ForEachNonZeroByte(begin, begin + RATIO);
      ScanExtends(was, now, lower.bytes[..], from, begin, begin + RATIO);
    }

    /** Scans the lower regions whose upper byte is set.  The callbacks of the
        upper scan touch only the lower layer, so the upper scan goes first. */
    method ForEachNonZeroByte(from: nat, to: nat) returns (calls: seq<(nat, U8)>)
      requires Valid() && to <= lower.bytes.Length
      requires from % 4096 == 0 && to % 4096 == 0
      modifies Repr()
      ensures Valid() && calls == NonZero(old(lower.bytes[..]), from, to)
      ensures Cleared(old(lower.bytes[..]), lower.bytes[..], from, to)
      ensures Cleared(old(upper.bytes[..]), upper.bytes[..], from / RATIO, to / RATIO)
    {
      LayerBounds(from);
      LayerBounds(to);
      ghost var marks, was := upper.bytes[..], lower.bytes[..];
      var regions := upper.ForEachNonZeroByte(from / RATIO, to / RATIO);
      calls := ScanRegions(regions, from, to, marks);
      StillCovers(marks, upper.bytes[..], was, lower.bytes[..], from, to);
    }

    /** The callbacks of the upper scan. A reversed range has none. */
    method ScanRegions(regions: seq<(nat, U8)>, ghost from: nat, ghost to: nat, ghost marks: seq<U8>)
      returns (calls: seq<(nat, U8)>)
      requires lower.bytes.Length == RATIO * |marks| && Covers(marks, lower.bytes[..]) && to <= lower.bytes.Length
      requires from % RATIO == 0 && to % RATIO == 0 && regions == NonZero(marks, from / RATIO, to / RATIO)
      modifies lower.bytes
      ensures calls == NonZero(old(lower.bytes[..]), from, to)
      ensures Cleared(old(lower.bytes[..]), lower.bytes[..], from, to)
    {
      ghost var was, upperTo := lower.bytes[..], to / RATIO;
      calls := [];
      ghost var done := from / RATIO;
      for j := 0 to |regions|
        invariant from > to ==> regions == [] && calls == [] && lower.bytes[..] == was
        invariant from <= to ==> from / RATIO <= done <= upperTo
        invariant from <= to ==> regions[j..] == NonZero(marks, done, upperTo)
        invariant from <= to ==> calls == NonZero(was, from, done * RATIO)
        invariant from <= to ==> Cleared(was, lower.bytes[..], from, done * RATIO)
      {
        FirstNonZero(marks, done, upperTo);
        assert regions[j..][0] == regions[j] && regions[j..][1..] == regions[j + 1..];
        var region := regions[j].0;
        SkipUnmarked(marks, was, done, region);
        var more := ScanRegion(region, was, from, done * RATIO);
        calls := calls + more;
        done := region + 1;
      }
      if from <= to {
        FirstNonZero(marks, done, upperTo);
        SkipUnmarked(marks, was, done, upperTo);
        NonZeroSplit(was, from, done * RATIO, to);
        SkippedIsCleared(was, lower.bytes[..], from, done * RATIO, to);
      }
    }
  }

  const RATIO: nat := 64

  predicate Covers(upper: seq<U8>, lower: seq<U8>)
    requires |lower| == RATIO * |upper|
  {
    forall i :: 0 <= i < |lower| && lower[i] != 0 ==> upper[i / RATIO] != 0
  }

  lemma LayerBounds(n: nat)
    requires n % 4096 == 0
    ensures n == RATIO * (n / RATIO) && (n / RATIO) % SIZE_MULTIPLE == 0 && n % SIZE_MULTIPLE == 0
  {
    var q := n / 4096;
    assert n == 64 * (64 * q);
    assert n / 64 == 64 * q;
  }

  lemma SkipUnmarked(upper: seq<U8>, lower: seq<U8>, a: nat, b: nat)
    requires |lower| == RATIO * |upper| && Covers(upper, lower) && a <= b <= |upper| && ZeroIn(upper, a, b)
    ensures ZeroIn(lower, a * RATIO, b * RATIO) && NonZero(lower, a * RATIO, b * RATIO) == []
  {
    forall i | a * RATIO <= i < b * RATIO ensures lower[i] == 0 {
      assert a <= i / RATIO < b;
    }
    NonZeroOfZeros(lower, a * RATIO, b * RATIO);
  }

  lemma SkipZeros(was: seq<U8>, now: seq<U8>, from: nat, a: nat, b: nat)
    requires from <= a <= b <= |was| && Cleared(was, now, from, a) && ZeroIn(was, a, b)
    ensures Cleared(was, now, from, b) && NonZero(was, from, a) == NonZero(was, from, b)
  {
    SkippedIsCleared(was, now, from, a, b);
    NonZeroOfZeros(was, a, b);
    NonZeroSplit(was, from, a, b);
  }

  lemma SkippedIsCleared(was: seq<U8>, now: seq<U8>, from: nat, a: nat, b: nat)
    requires from <= a <= b <= |was| && Cleared(was, now, from, a) && ZeroIn(was, a, b)
    ensures Cleared(was, now, from, b)
  {
  }

  lemma StillCovers(upper: seq<U8>, upper': seq<U8>, lower: seq<U8>, lower': seq<U8>, from: nat, to: nat)
    requires |lower| == RATIO * |upper| && Covers(upper, lower) && to <= |lower|
    requires from % RATIO == 0 && to % RATIO == 0
    requires Cleared(upper, upper', from / RATIO, to / RATIO) && Cleared(lower, lower', from, to)
    ensures Covers(upper', lower')
  {
    forall i | 0 <= i < |lower'| && lower'[i] != 0 ensures upper'[i / RATIO] != 0 {
      assert lower[i] != 0 && !(from <= i < to);
    }
  }

  // ------------------------------------------------------------- whole runs

  datatype Op = Put(idx: nat, value: U8) | Increment(idx: nat) | Scan(from: nat, to: nat)

  predicate Allowed(op: Op, size: nat) {
    match op
    case Put(idx, _) => idx < size
    case Increment(idx) => idx < size
    case Scan(from, to) => to <= size && from % 4096 == 0 && to % 4096 == 0
  }

  /** Any sequence of operations gives the same callbacks, in the same order, on
      the layered set as on a flat set, and leaves the same contents. */
  method RunBoth(flat: ConcurrentByteSet, layered: TwoLayerConcurrentByteSet, ops: seq<Op>)
    returns (flatCalls: seq<(nat, U8)>, layeredCalls: seq<(nat, U8)>)
    requires layered.Valid() && flat.bytes !in layered.Repr()
    requires flat.bytes[..] == layered.lower.bytes[..]
    requires forall op <- ops :: Allowed(op, |flat.bytes[..]|)
    modifies flat.bytes, layered.Repr()
    ensures flatCalls == layeredCalls
    ensures layered.Valid() && flat.bytes[..] == layered.lower.bytes[..]
  {
    flatCalls, layeredCalls := [], [];
    for i := 0 to |ops|
      invariant flatCalls == layeredCalls && |flat.bytes[..]| == |old(flat.bytes[..])|
      invariant layered.Valid() && flat.bytes[..] == layered.lower.bytes[..]
    {
      assert ops[i] in ops;
      var a, b := RunOne(flat, layered, ops[i]);
      flatCalls, layeredCalls := flatCalls + a, layeredCalls + b;
    }
  }

  /** One operation on both sets. */
  method RunOne(flat: ConcurrentByteSet, layered: TwoLayerConcurrentByteSet, op: Op)
    returns (flatCalls: seq<(nat, U8)>, layeredCalls: seq<(nat, U8)>)
    requires layered.Valid() && flat.bytes !in layered.Repr()
    requires flat.bytes[..] == layered.lower.bytes[..] && Allowed(op, |flat.bytes[..]|)
    modifies flat.bytes, layered.Repr()
    ensures flatCalls == layeredCalls
    ensures layered.Valid() && flat.bytes[..] == layered.lower.bytes[..]
    ensures |flat.bytes[..]| == |old(flat.bytes[..])|
  {
    flatCalls, layeredCalls := [], [];
    ghost var was := flat.bytes[..];
    assert |layered.lower.bytes[..]| == |was|;
    match op {
      case Put(idx, value) =>
        flat.Set(idx, value);
        layered.Set(idx, value);
      case Increment(idx) =>
        assert flat.bytes[idx] == was[idx] == layered.lower.bytes[idx];
        flat.SaturatedIncrement(idx);
        layered.SaturatedIncrement(idx);
      case Scan(from, to) =>
        flatCalls, layeredCalls := ScanBoth(flat, layered, from, to);
    }
  }

  method ScanBoth(flat: ConcurrentByteSet, layered: TwoLayerConcurrentByteSet, from: nat, to: nat)
    returns (flatCalls: seq<(nat, U8)>, layeredCalls: seq<(nat, U8)>)
    requires layered.Valid() && flat.bytes !in layered.Repr()
    requires flat.bytes[..] == layered.lower.bytes[..] && Allowed(Scan(from, to), |flat.bytes[..]|)
    modifies flat.bytes, layered.Repr()
    ensures flatCalls == layeredCalls
    ensures layered.Valid() && flat.bytes[..] == layered.lower.bytes[..]
  {
    ghost var was := flat.bytes[..];
    LayerBounds(from);
    LayerBounds(to);
    assert |was| == flat.bytes.Length == layered.lower.bytes.Length by {
      assert |layered.lower.bytes[..]| == |was|;
    }
    flatCalls := flat.ForEachNonZeroByte(from, to);
    assert layered.lower.bytes[..] == was;
    layeredCalls := layered.ForEachNonZeroByte(from, to);
    ClearedUnique(was, flat.bytes[..], layered.lower.bytes[..], from, to);
  }
}
