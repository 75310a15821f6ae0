/** The byte array mutator: alignment and length arithmetic under every choice of the
    random number generator and the knobs. A draw is an arbitrary natural number;
    a `ByteArray &` parameter is a value in and a value out. */
module Mutators {
  import opened Bytes
  import opened CmpDictionaries

  // --------------------------------------------------------------- alignment

  predicate Aligned(n: int, alignment: nat)
    requires alignment > 0
  {
    n % alignment == 0
  }

  lemma MultipleAligned(k: int, a: nat)
    requires a > 0
    ensures Aligned(k * a, a)
  {
    DivModUnique(k * a, a, k, 0);
  }

  lemma DivModUnique(n: int, a: nat, q: int, r: int)
    requires a > 0 && n == q * a + r && 0 <= r < a
    ensures n / a == q && n % a == r
  {
    var d := q - n / a;
    assert d * a == n % a - r by {
      assert n == (n / a) * a + n % a;
      assert d * a == q * a - (n / a) * a;
    }
    MultipleSize(d, a);
  }

  /** Aligned lengths lie a whole number of alignments apart. */
  lemma AlignedApart(m: nat, n: nat, a: nat)
    requires a > 0 && Aligned(m, a) && Aligned(n, a) && m < n
    ensures m + a <= n
  {
    assert m == (m / a) * a && n == (n / a) * a;
    var d := n / a - m / a;
    assert d * a == n - m;
    MultipleSize(d, a);
  }

  lemma AlignedShift(n: int, a: nat)
    requires a > 0 && Aligned(n, a)
    ensures Aligned(n - a, a) && Aligned(n + a, a)
  {
    assert n == (n / a) * a;
    assert (n / a - 1) * a == n - a && (n / a + 1) * a == n + a;
    MultipleAligned(n / a - 1, a);
    MultipleAligned(n / a + 1, a);
  }

  lemma AlignedNeighbours(n: nat, a: nat)
    requires a > 0
    ensures Aligned(n - n % a, a) && Aligned(n - n % a + a, a)
  {
    assert n - n % a == (n / a) * a;
    MultipleAligned(n / a, a);
    AlignedShift(n - n % a, a);
  }

  // ---------------------------------------------------------------- rounding

  /** The limit is a multiple of the alignment, as the setters demand, or so far
      away (the default is the largest size_t) that rounding n up stays below it. */
  predicate Roomy(alignment: nat, maxLen: nat, n: nat)
  {
    alignment > 0 && (maxLen % alignment == 0 || n + alignment <= maxLen)
  }

  lemma RoomForOne(alignment: nat, maxLen: nat, n: nat)
    requires Roomy(alignment, maxLen, n) && maxLen > 0
    ensures alignment <= maxLen
  {
    if maxLen % alignment == 0 {
      AlignedApart(0, maxLen, alignment);
    }
  }

  function RoundUpToAdd(alignment: nat, maxLen: nat, size: nat, add: nat): nat
    requires alignment > 0
  {
    if size >= maxLen then 0
    else
      var remainder := (size + add) % alignment;
      var toAdd := if remainder != 0 then add + alignment - remainder else add;
      if size + toAdd > maxLen then maxLen - size else toAdd
  }

  /** Below the limit, the new length is the least aligned length that holds the
      requested bytes, cut at the limit; at the limit nothing is added. */
  lemma RoundUpIsLeast(alignment: nat, maxLen: nat, size: nat, add: nat)
    requires Roomy(alignment, maxLen, size + add)
    ensures size >= maxLen ==> RoundUpToAdd(alignment, maxLen, size, add) == 0
    ensures var end := size + RoundUpToAdd(alignment, maxLen, size, add);
            size < maxLen ==>
              && Aligned(end, alignment) && end <= maxLen
              && (size + add <= end || end == maxLen)
              && end < size + add + alignment
              && forall m: nat :: size + add <= m < end ==> !Aligned(m, alignment)
  {
    var n := size + add;
    var end := size + RoundUpToAdd(alignment, maxLen, size, add);
    AlignedNeighbours(n, alignment);
    if size < maxLen {
      var up := if n % alignment != 0 then n - n % alignment + alignment else n;
      forall m: nat | n <= m < up ensures !Aligned(m, alignment) {
        if Aligned(m, alignment) {
          AlignedApart(m, up, alignment);
        }
      }
    }
  }

  function RoundDownToRemove(alignment: nat, maxLen: nat, size: nat, remove: nat): int
    requires alignment > 0
  {
    if size <= alignment then 0
    else if remove >= size then size - alignment
    else
      var kept := size - remove;
      var result := kept - kept % alignment;
      var toRemove := if result == 0 then size - result - alignment else size - result;
      if result > maxLen then size - maxLen else toRemove
  }

  /** Above one alignment, the new length is the largest aligned length within both
      the request and the limit, but never less than one alignment. With limit 0 it is
      one alignment if less was to stay, and otherwise nothing. */
  lemma RoundDownIsLargest(alignment: nat, maxLen: nat, size: nat, remove: nat)
    requires Roomy(alignment, maxLen, size)
    ensures size <= alignment ==> RoundDownToRemove(alignment, maxLen, size, remove) == 0
    ensures var kept := size - RoundDownToRemove(alignment, maxLen, size, remove);
            size > alignment ==>
              && Aligned(kept, alignment) && 0 <= kept <= size
              && (kept <= size - remove || kept == alignment)
              && (maxLen > 0 ==> alignment <= kept <= maxLen)
              && (maxLen == 0 ==> kept == if size - remove < alignment then alignment else 0)
              && forall m: nat :: Aligned(m, alignment) && m <= size - remove && m <= maxLen ==> m <= kept
  {
    MultipleAligned(1, alignment);
    MultipleAligned(0, alignment);
    if maxLen > 0 {
      RoomForOne(alignment, maxLen, size);
    }
    if remove < size {
      AlignDown(size - remove, alignment);
    }
  }

  /** With limit 0, erasing one byte of an input longer than the alignment erases it all. */
  lemma LimitZeroErasesAll(alignment: nat, size: nat)
    requires 0 < alignment < size
    ensures size - RoundDownToRemove(alignment, 0, size, 1) == 0
  {
    RoundDownIsLargest(alignment, 0, size, 1);
  }

  /** Erasing leaves something of an input, whatever is drawn, exactly when the limit is
      positive or the input is too short to be erased from. */
  lemma EraseKeepsSomething(alignment: nat, maxLen: nat, size: nat)
    requires Roomy(alignment, maxLen, size) && size > 0
    ensures (forall n: nat :: 1 <= n <= size / 2 ==> size - RoundDownToRemove(alignment, maxLen, size, n) > 0)
            <==> maxLen > 0 || size <= alignment
  {
    if maxLen > 0 || size <= alignment {
      forall n: nat | 1 <= n <= size / 2 ensures size - RoundDownToRemove(alignment, maxLen, size, n) > 0 {
        RoundDownIsLargest(alignment, maxLen, size, n);
      }
    } else {
      LimitZeroErasesAll(alignment, size);
    }
  }

  lemma AlignDown(want: nat, alignment: nat)
    requires alignment > 0
    ensures var down := want - want % alignment;
            && Aligned(down, alignment) && (down == 0 || alignment <= down <= want)
            && forall m: nat :: Aligned(m, alignment) && m <= want ==> m <= down
  {
    var down := want - want % alignment;
    AlignedNeighbours(want, alignment);
    MultipleAligned(0, alignment);
    if down > 0 {
      AlignedApart(0, down, alignment);
    }
    forall m: nat | Aligned(m, alignment) && m <= want ensures m <= down {
      if m > down {
        AlignedApart(down, m, alignment);
      }
    }
  }

  // ----------------------------------------------------------- insert counts

  const MAX_INSERT_SIZE: nat := 20
  const SIZE_MAX: nat := 0xFFFF_FFFF_FFFF_FFFF

  /** The number of bytes InsertBytes decides to insert; negative where the
      unsigned subtraction would wrap around. */
  function InsertCount(alignment: nat, maxLen: nat, size: nat, wanted: nat): int
    requires alignment > 0
  {
    var n := RoundUpToAdd(alignment, maxLen, size, wanted);
    if n > MAX_INSERT_SIZE then n - alignment else n
  }

  /** Rounding an input of this size up takes at most 20 bytes, or leaves its length
      aligned as it is. */
  predicate InsertSafe(alignment: nat, maxLen: nat, size: nat)
    requires alignment > 0
  {
    size >= maxLen || size % alignment == 0 || alignment - size % alignment <= MAX_INSERT_SIZE
  }

  lemma InsertCountInRange(alignment: nat, maxLen: nat, size: nat, wanted: nat)
    requires 1 <= wanted <= MAX_INSERT_SIZE && Roomy(alignment, maxLen, size + wanted) && InsertSafe(alignment, maxLen, size)
    ensures 0 <= InsertCount(alignment, maxLen, size, wanted) <= MAX_INSERT_SIZE
    ensures size < maxLen ==>
      var end := size + InsertCount(alignment, maxLen, size, wanted);
      Aligned(end, alignment) && end <= maxLen
  {
    RoundUpIsLeast(alignment, maxLen, size, wanted);
    if size < maxLen {
      var n := RoundUpToAdd(alignment, maxLen, size, wanted);
      AlignedShift(size + n, alignment);
      if n > MAX_INSERT_SIZE {
        AlignedNeighbours(size, alignment);
        AlignedApart(if size % alignment == 0 then size else size - size % alignment + alignment, size + n, alignment);
      }
    }
  }

  /** For one input: the fixed buffer of InsertBytes suffices, and its subtraction does not
      wrap, for every draw exactly when the input is safe; otherwise it wraps for every draw. */
  lemma InsertSafeExact(alignment: nat, maxLen: nat, size: nat)
    requires Roomy(alignment, maxLen, size + MAX_INSERT_SIZE)
    ensures (forall wanted: nat :: 1 <= wanted <= MAX_INSERT_SIZE ==>
               0 <= InsertCount(alignment, maxLen, size, wanted) <= MAX_INSERT_SIZE)
            <==> InsertSafe(alignment, maxLen, size)
    ensures !InsertSafe(alignment, maxLen, size) ==>
              forall wanted: nat :: 1 <= wanted <= MAX_INSERT_SIZE ==> InsertCount(alignment, maxLen, size, wanted) < 0
  {
    forall wanted: nat | 1 <= wanted <= MAX_INSERT_SIZE
      ensures InsertSafe(alignment, maxLen, size) ==> 0 <= InsertCount(alignment, maxLen, size, wanted) <= MAX_INSERT_SIZE
      ensures !InsertSafe(alignment, maxLen, size) ==> InsertCount(alignment, maxLen, size, wanted) < 0
    {
      if InsertSafe(alignment, maxLen, size) {
        InsertCountInRange(alignment, maxLen, size, wanted);
      }
      UnsafeInsertWraps(alignment, maxLen, size, wanted);
    }
    UnsafeInsertWraps(alignment, maxLen, size, 1);
  }

  lemma UnsafeInsertWraps(alignment: nat, maxLen: nat, size: nat, wanted: nat)
    requires Roomy(alignment, maxLen, size + wanted) && 1 <= wanted <= MAX_INSERT_SIZE
    ensures !InsertSafe(alignment, maxLen, size) ==>
              InsertCount(alignment, maxLen, size, wanted) == -(size % alignment) < 0
  {
    if !InsertSafe(alignment, maxLen, size) {
      var r := size % alignment;
      DivModUnique(size + wanted, alignment, size / alignment, r + wanted);
      if maxLen % alignment == 0 {
        AlignedNeighbours(size, alignment);
        AlignedApart(size - r, maxLen, alignment);
      }
      RoundUpFrom(alignment, maxLen, size, wanted, r + wanted);
    }
  }

  lemma RoundUpFrom(alignment: nat, maxLen: nat, size: nat, add: nat, remainder: nat)
    requires alignment > 0 && remainder == (size + add) % alignment && remainder > 0
    requires size < maxLen && size + add + alignment - remainder <= maxLen
    ensures RoundUpToAdd(alignment, maxLen, size, add) == add + alignment - remainder
  {
  }

  /** For all inputs, and for every limit that the setters accept, the default included:
      exactly when the alignment is at most 21 or the limit is 0. */
  lemma InsertBytesSafe(alignment: nat, maxLen: nat)
    requires 0 < alignment <= SIZE_MAX && (maxLen == SIZE_MAX || maxLen % alignment == 0)
    ensures (forall size: nat, wanted: nat :: size > 0 && 1 <= wanted <= 20 ==>
               0 <= InsertCount(alignment, maxLen, size, wanted) <= 20)
            <==> alignment <= 21 || maxLen == 0
  {
    if alignment <= MAX_INSERT_SIZE + 1 || maxLen == 0 {
      forall size: nat, wanted: nat | size > 0 && 1 <= wanted <= MAX_INSERT_SIZE
        ensures 0 <= InsertCount(alignment, maxLen, size, wanted) <= MAX_INSERT_SIZE
      {
        assert RoundUpToAdd(alignment, maxLen, size, wanted) < wanted + alignment;
      }
    } else {
      if maxLen % alignment == 0 {
        RoomForOne(alignment, maxLen, 0);
      }
      InsertBytesWraps(alignment, maxLen);
    }
  }

  lemma InsertBytesWraps(alignment: nat, maxLen: nat)
    requires MAX_INSERT_SIZE + 1 < alignment <= maxLen
    ensures InsertCount(alignment, maxLen, 1, 1) == -1
  {
    DivModUnique(2, alignment, 0, 2);
    RoundUpFrom(alignment, maxLen, 1, 1, 2);
  }

  /** The number of bytes CrossOverInsert inserts, when it inserts. */
  function CrossCount(alignment: nat, maxLen: nat, size: nat, other: nat, wanted: nat): int
    requires alignment > 0
  {
    var n := RoundUpToAdd(alignment, maxLen, size, wanted);
    if n > other then n - alignment else n
  }

  lemma CrossCountInRange(alignment: nat, maxLen: nat, size: nat, other: nat, wanted: nat)
    requires 1 <= wanted <= other && Roomy(alignment, maxLen, size + other)
    requires size < maxLen && size % alignment + other >= alignment
    ensures 1 <= CrossCount(alignment, maxLen, size, other, wanted) <= other
    ensures var end := size + CrossCount(alignment, maxLen, size, other, wanted);
            Aligned(end, alignment) && end <= maxLen
  {
    RoundUpIsLeast(alignment, maxLen, size, wanted);
    var n := RoundUpToAdd(alignment, maxLen, size, wanted);
    AlignedShift(size + n, alignment);
    if n > other {
      AlignedNeighbours(size, alignment);
      AlignedApart(size - size % alignment + alignment, size + n, alignment);
    }
  }

  // ---------------------------------------------------------------- mutators

  function Overwritten(data: Data, pos: nat, bytes: Data): (r: Data)
    requires pos + |bytes| <= |data|
    ensures |r| == |data| && r[pos..pos + |bytes|] == bytes
    ensures r[..pos] == data[..pos] && r[pos + |bytes|..] == data[pos + |bytes|..]
  {
    data[..pos] + bytes + data[pos + |bytes|..]
  }

  function Inserted(data: Data, pos: nat, bytes: Data): (r: Data)
    requires pos <= |data|
    ensures |r| == |data| + |bytes|
  {
    data[..pos] + bytes + data[pos..]
  }

  lemma InsertedExact(data: Data, pos: nat, bytes: Data)
    requires pos <= |data|
    ensures var r, n := Inserted(data, pos, bytes), |bytes|;
            r[..pos] == data[..pos] && r[pos..pos + n] == bytes && r[pos + n..] == data[pos..]
  {
  }

  /** b is a with bytes inserted at one place. */
  ghost predicate Grown(a: Data, b: Data) {
    exists pos: nat, bytes: Data :: pos <= |a| && b == Inserted(a, pos, bytes)
  }

  /** One bit of one byte is the other way round. */
  ghost predicate BitFlipped(data: Data, r: Data) {
    |r| == |data| &&
    exists i, b | 0 <= i < |data| && 0 <= b < 8 :: r == data[i := FlippedBit(data[i], b)]
  }

  ghost predicate BytesSwapped(data: Data, r: Data) {
    |r| == |data| &&
    exists i, j | 0 <= i < |data| && 0 <= j < |data| :: r == data[i := data[j]][j := data[i]]
  }

  ghost predicate ByteChanged(data: Data, r: Data) {
    exists i: nat, b: U8 | i < |data| :: r == Overwritten(data, i, [b])
  }

  ghost predicate OverwrittenByEntry(dict: seq<Data>, data: Data, r: Data) {
    exists e <- dict, pos: nat :: pos + |e| <= |data| && r == Overwritten(data, pos, e)
  }

  ghost predicate InsertedEntry(dict: seq<Data>, data: Data, r: Data) {
    exists e <- dict, pos: nat :: pos <= |data| && r == Inserted(data, pos, e)
  }

  /** An operand found in the data is replaced by its partner. */
  ghost predicate OperandReplaced(cmp: seq<Entry>, data: Data, r: Data) {
    exists idx: nat :: Replaced(cmp, data, idx, r)
  }

  /** The five mutations that keep the length. */
  ghost predicate SameSizeMutant(dict: seq<Data>, cmp: seq<Entry>, data: Data, r: Data) {
    || BitFlipped(data, r) || BytesSwapped(data, r) || ByteChanged(data, r)
    || OverwrittenByEntry(dict, data, r) || OperandReplaced(cmp, data, r)
  }

  /** Above the limit an input can only shrink, and only below it can it grow. */
  ghost predicate Mutated(maxLen: nat, dict: seq<Data>, cmp: seq<Entry>, data: Data, r: Data) {
    || (|data| <= maxLen && SameSizeMutant(dict, cmp, data, r))
    || (|data| < maxLen && Grown(data, r) && |r| <= |data| + 20)
    || (|data| < maxLen && InsertedEntry(dict, data, r))
    || (|r| < |data| && Grown(r, data))
  }

  /** A part of one of the inputs is inserted, or written over a part of the data; only
      below the limit can it be inserted, or nothing happen. */
  ghost predicate CrossedOver(maxLen: nat, inputs: seq<Data>, data: Data, r: Data) {
    && |data| <= maxLen
    && ((|data| < maxLen && r == data)
        || exists other <- inputs ::
             OverwrittenFrom(data, other, r) || (|data| < maxLen && InsertedFrom(data, other, r)))
  }

  /** Every mutant comes from its origin in one of these ways, or is the origin. */
  ghost predicate Derived(maxLen: nat, dict: seq<Data>, cmp: seq<Entry>, inputs: seq<Data>, data: Data, r: Data) {
    r == data || Mutated(maxLen, dict, cmp, data, r) || CrossedOver(maxLen, inputs, data, r)
  }

  /** A mutant as long as its origin is the origin itself, or one bit of it is flipped,
      two bytes swapped, one byte changed, an entry or a partner written over it, or a
      part of another input; nothing else can happen to it. */
  lemma SameLength(maxLen: nat, dict: seq<Data>, cmp: seq<Entry>, inputs: seq<Data>, data: Data, r: Data)
    requires Derived(maxLen, dict, cmp, inputs, data, r) && |r| == |data|
    ensures r == data || SameSizeMutant(dict, cmp, data, r) || exists other <- inputs :: OverwrittenFrom(data, other, r)
  {
    if Grown(data, r) {
      var pos: nat, bytes: Data :| pos <= |data| && r == Inserted(data, pos, bytes);
      assert r == data;
    }
    if InsertedEntry(dict, data, r) {
      var e: Data, pos: nat :| e in dict && pos <= |data| && r == Inserted(data, pos, e);
      assert r == data;
    }
    assert forall other <- inputs :: !InsertedFrom(data, other, r);
  }

  /** A non-empty part of `other` is inserted into the data. */
  ghost predicate InsertedFrom(data: Data, other: Data, r: Data) {
    exists pos: nat, first: nat, n: nat ::
      pos <= |data| && 1 <= n && first + n <= |other| && r == Inserted(data, pos, Slice(other, first, n))
  }

  /** At least one byte and, beyond that, at most half of the data is overwritten by
      a part of `other`. */
  ghost predicate OverwrittenFrom(data: Data, other: Data, r: Data) {
    exists pos: nat, first: nat, n: nat ::
      && 1 <= n && (n == 1 || 2 * n <= |data|) && pos + n <= |data| && first + n <= |other|
      && r == Overwritten(data, pos, Slice(other, first, n))
  }

  function Slice(data: Data, first: nat, n: nat): (r: Data)
    requires first + n <= |data|
    ensures |r| == n && forall k | 0 <= k < n :: r[k] == data[first + k]
  {
    data[first..first + n]
  }

  /** The k-th index of a search that starts at `start` and wraps around. */
  function Wrapped(start: nat, k: nat, n: nat): (idx: nat)
    requires n > 0
    ensures idx < n
  {
    (start + k) % n
  }

  function Longest(dict: seq<Data>): (n: nat)
    ensures forall e <- dict :: |e| <= n
    ensures n > 0 ==> exists e <- dict :: |e| == n
  {
    if dict == [] then 0
    else
      var rest := Longest(dict[1..]);
      assert dict == [dict[0]] + dict[1..];
      if |dict[0]| > rest then |dict[0]| else rest
  }

  /** Inserting from the static dictionary ignores the limit. */
  function LengthBound(maxLen: nat, dict: seq<Data>): (n: nat)
    ensures maxLen <= n
  {
    if Longest(dict) <= 1 then maxLen else maxLen + Longest(dict) - 1
  }

  /** Every insertion from the dictionary into an input below the limit stays within
      the limit exactly when no entry is longer than one byte or there is no such input. */
  lemma DictionaryKeepsLimit(maxLen: nat, dict: seq<Data>)
    ensures (forall data: Data, pos: nat, e: Data ::
               e in dict && pos <= |data| && 0 < |data| < maxLen ==> |Inserted(data, pos, e)| <= maxLen)
            <==> Longest(dict) <= 1 || maxLen <= 1
  {
    if Longest(dict) > 1 && maxLen > 1 {
      var e :| e in dict && |e| == Longest(dict);
      assert |Inserted(Zeros(maxLen - 1), 0, e)| > maxLen;
    }
  }

  function PowerOf2(n: nat): (p: nat)
    ensures p > 0
  {
    if n == 0 then 1 else 2 * PowerOf2(n - 1)
  }

  /** x ^ (1 << b) within n bits: the value moves by exactly that bit. */
  function Flipped(x: nat, b: nat, n: nat): (r: nat)
    requires b < n && x < PowerOf2(n)
    ensures r < PowerOf2(n) && (r == x + PowerOf2(b) || r == x - PowerOf2(b))
  {
    if b == 0 then (if x % 2 == 0 then x + 1 else x - 1)
    else 2 * Flipped(x / 2, b - 1, n - 1) + x % 2
  }

  function FlippedBit(x: U8, b: nat): (r: U8)
    requires b < 8
    ensures r == x + PowerOf2(b) || r == x - PowerOf2(b)
  {
    assert PowerOf2(8) == 256 by {
      assert PowerOf2(4) == 16;
    }
    Flipped(x, b, 8)
  }

  /** The value of bit k. */
  predicate BitOf(x: nat, k: nat) { if k == 0 then x % 2 == 1 else BitOf(x / 2, k - 1) }

  /** Exactly the bit asked for changes. */
  lemma {:induction false} FlipsOneBit(x: nat, b: nat, n: nat, k: nat)
    requires b < n && x < PowerOf2(n)
    ensures BitOf(Flipped(x, b, n), k) <==> BitOf(x, k) != (k == b)
  {
    var r := Flipped(x, b, n);
    if b == 0 {
      assert r / 2 == x / 2;
    } else {
      assert r / 2 == Flipped(x / 2, b - 1, n - 1) && r % 2 == x % 2;
      if k > 0 {
        FlipsOneBit(x / 2, b - 1, n - 1, k - 1);
      }
    }
  }

  /** An arbitrary draw of the generator, reduced as the source reduces it. */
  method Draw(n: nat) returns (r: nat)
    requires n > 0
    ensures r < n
  {
    var random: nat := *;
    r := random % n;
  }

  method RandomBytes(n: nat) returns (bytes: Data)
    ensures |bytes| == n
  {
    bytes := [];
    for i := 0 to n
      invariant |bytes| == i
    {
      var b := Draw(256);
      bytes := bytes + [b];
    }
  }

  class ByteArrayMutator {
    var sizeAlignment: nat
    var maxLen: nat
    var dictionary: seq<Data>
    const cmpDictionary: CmpDictionary

    constructor ()
      ensures sizeAlignment == 1 && maxLen == SIZE_MAX && dictionary == []
      ensures fresh(cmpDictionary) && cmpDictionary.dictionary == []
    {
      sizeAlignment := 1;
      maxLen := SIZE_MAX;
      dictionary := [];
      cmpDictionary := new CmpDictionary();
    }

    /** What the setters keep. */
    predicate Configured()
      reads this
    {
      sizeAlignment > 0 && (maxLen == SIZE_MAX || maxLen % sizeAlignment == 0)
    }

    /** Lengths up to n can be rounded up: with the default limit they lie far enough below
        it, as the lengths of all real arrays do. */
    predicate CanHold(n: nat)
      reads this
    {
      Configured() && Roomy(sizeAlignment, maxLen, n)
    }

    method SetSizeAlignment(alignment: nat) returns (ok: bool)
      requires Configured() && alignment > 0
      modifies this
      ensures Configured() && maxLen == old(maxLen) && dictionary == old(dictionary)
      ensures ok <==> maxLen == SIZE_MAX || Aligned(maxLen, alignment)
      ensures sizeAlignment == if ok then alignment else old(sizeAlignment)
    {
      if maxLen != SIZE_MAX && maxLen % alignment != 0 {
        return false;
      }
      sizeAlignment := alignment;
      return true;
    }

    method SetMaxLen(len: nat) returns (ok: bool)
      requires Configured()
      modifies this
      ensures Configured() && sizeAlignment == old(sizeAlignment) && dictionary == old(dictionary)
      ensures ok <==> len == SIZE_MAX || Aligned(len, sizeAlignment)
      ensures maxLen == if ok then len else old(maxLen)
    {
      if len != SIZE_MAX && len % sizeAlignment != 0 {
        return false;
      }
      maxLen := len;
      return true;
    }

    method AddToDictionary(entries: seq<Data>)
      requires forall e <- dictionary :: |e| <= MAX_ENTRY_SIZE
      modifies this
      ensures sizeAlignment == old(sizeAlignment) && maxLen == old(maxLen)
      ensures forall e <- dictionary :: |e| <= MAX_ENTRY_SIZE
      ensures forall e :: e in dictionary <==> e in old(dictionary) || (e in entries && |e| <= 128)
    {
      for i := 0 to |entries|
        invariant sizeAlignment == old(sizeAlignment) && maxLen == old(maxLen)
        invariant forall e :: e in dictionary <==> e in old(dictionary) || (e in entries[..i] && |e| <= MAX_ENTRY_SIZE)
      {
        if |entries[i]| <= MAX_ENTRY_SIZE {
          dictionary := dictionary + [entries[i]];
        }
      }
    }

    // ------------------------------------------------------------ same size

    method FlipBit(data: Data) returns (r: Data)
      requires data != []
      ensures BitFlipped(data, r)
    {
      var bit := Draw(|data| * 8);
      var i, b := bit / 8, bit % 8;
      r := data[i := FlippedBit(data[i], b)];
    }

    method SwapBytes(data: Data) returns (r: Data)
      requires data != []
      ensures BytesSwapped(data, r) && multiset(r) == multiset(data)
    {
      var i := Draw(|data|);
      var j := Draw(|data|);
      r := data[i := data[j]][j := data[i]];
    }

    method ChangeByte(data: Data) returns (r: Data)
      requires data != []
      ensures ByteChanged(data, r)
    {
      var i := Draw(|data|);
      var b := Draw(256);
      r := data[i := b];
      assert r == Overwritten(data, i, [b]);
    }

    method OverwriteFromDictionary(data: Data) returns (ok: bool, r: Data)
      ensures !ok ==> r == data
      ensures ok ==> OverwrittenByEntry(dictionary, data, r)
      ensures (forall e <- dictionary :: |e| <= |data|) && dictionary != [] ==> ok
    {
      if dictionary == [] {
        return false, data;
      }
      var k := Draw(|dictionary|);
      var e := dictionary[k];
      if |e| > |data| {
        return false, data;
      }
      var pos := Draw(|data| - |e| + 1);
      return true, Overwritten(data, pos, e);
    }

    /** Replaces an operand of an observed comparison by the other one. When the heads
        ascend it succeeds exactly when some position has a match; the last
        two-byte tail is not searched. */
    method OverwriteFromCmpDictionary(data: Data) returns (ok: bool, r: Data)
      ensures !ok ==> r == data
      ensures ok ==> OperandReplaced(cmpDictionary.dictionary, data, r)
      ensures HeadsAscend(cmpDictionary.dictionary) ==>
                (ok <==> exists idx: nat :: HasMatch(cmpDictionary.dictionary, data, idx))
    {
      if |cmpDictionary.dictionary| == 0 {
        return false, data;
      }
      if |data| < MIN_ENTRY_SIZE {
        return false, data;
      }
      var start := Draw(|data|);
      var suggestions: seq<Data> := [];
      for i := 0 to |data|
        invariant |suggestions| <= MAX_NUM_SUGGESTIONS
        invariant HeadsAscend(cmpDictionary.dictionary) ==>
          forall k | 0 <= k < i :: !HasMatch(cmpDictionary.dictionary, data, Wrapped(start, k, |data|))
      {
        ok, r, suggestions := OverwriteAt(data, Wrapped(start, i, |data|), suggestions);
        if ok {
          return;
        }
      }
      forall idx: nat | HeadsAscend(cmpDictionary.dictionary) && idx < |data|
        ensures !HasMatch(cmpDictionary.dictionary, data, idx)
      {
        var k := Rotation(start, idx, |data|);
      }
      return false, data;
    }

    /** One position of the search. */
    method OverwriteAt(data: Data, idx: nat, held: seq<Data>) returns (ok: bool, r: Data, suggestions: seq<Data>)
      requires idx < |data| && |held| <= MAX_NUM_SUGGESTIONS
      ensures |suggestions| <= MAX_NUM_SUGGESTIONS
      ensures !ok ==> r == data
      ensures ok ==> HasMatch(cmpDictionary.dictionary, data, idx) && Replaced(cmpDictionary.dictionary, data, idx, r)
      ensures HeadsAscend(cmpDictionary.dictionary) && !ok ==> !HasMatch(cmpDictionary.dictionary, data, idx)
    {
      if idx + MIN_ENTRY_SIZE >= |data| {
        return false, data, held;
      }
      var tail := data[idx..];
      suggestions := cmpDictionary.SuggestReplacement(tail, held, MAX_NUM_SUGGESTIONS);
      if suggestions == [] {
        return false, data, suggestions;
      }
      var k := Draw(|suggestions|);
      var suggestion := suggestions[k];
      MatchesExact(cmpDictionary.dictionary, tail, suggestion);
      if idx + |suggestion| <= |data| {
        return true, Overwritten(data, idx, suggestion), suggestions;
      }
      return false, data, suggestions;
    }

    // ------------------------------------------------------------- new size

    method InsertBytes(data: Data) returns (r: Data)
      requires CanHold(|data| + MAX_INSERT_SIZE) && InsertSafe(sizeAlignment, maxLen, |data|)
      ensures Grown(data, r) && |r| <= |data| + 20
      ensures |data| < maxLen ==> |r| <= maxLen && Aligned(|r|, sizeAlignment)
      ensures |data| >= maxLen ==> r == data
    {
      var wanted := Draw(MAX_INSERT_SIZE);
      wanted := wanted + 1;
      InsertCountInRange(sizeAlignment, maxLen, |data|, wanted);
      var n := RoundUpToAdd(sizeAlignment, maxLen, |data|, wanted);
      if n > MAX_INSERT_SIZE {
        n := n - sizeAlignment;
      }
      var pos := Draw(|data| + 1);
      var bytes := RandomBytes(n);
      r := Inserted(data, pos, bytes);
    }

    /** It fails exactly on inputs of at most one alignment; otherwise the input
        shrinks to an aligned length, not empty and within the limit unless that is 0. */
    method EraseBytes(data: Data) returns (ok: bool, r: Data)
      requires CanHold(|data|)
      ensures ok <==> |data| > sizeAlignment
      ensures !ok ==> r == data
      ensures ok ==> Grown(r, data) && |r| < |data| && Aligned(|r|, sizeAlignment)
      ensures ok && maxLen > 0 ==> sizeAlignment <= |r| <= maxLen
      ensures ok && maxLen == 0 ==> |r| == 0 || |r| == sizeAlignment
      ensures ok ==> exists n: nat :: 1 <= n <= |data| / 2 &&
                       |r| == |data| - RoundDownToRemove(sizeAlignment, maxLen, |data|, n)
    {
      if |data| <= sizeAlignment {
        return false, data;
      }
      var n := Draw(|data| / 2);
      n := n + 1;
      RoundDownIsLargest(sizeAlignment, maxLen, |data|, n);
      var m := RoundDownToRemove(sizeAlignment, maxLen, |data|, n);
      if m == 0 {
        return false, data;
      }
      var pos := Draw(|data| - m + 1);
      r := data[..pos] + data[pos + m..];
      assert data == Inserted(r, pos, data[pos..pos + m]);
      return true, r;
    }

    /** The limit is not consulted. */
    method InsertFromDictionary(data: Data) returns (ok: bool, r: Data)
      ensures ok <==> dictionary != []
      ensures !ok ==> r == data
      ensures ok ==> InsertedEntry(dictionary, data, r)
    {
      if dictionary == [] {
        return false, data;
      }
      var k := Draw(|dictionary|);
      var e := dictionary[k];
      var pos := Draw(|data| + 1);
      return true, Inserted(data, pos, e);
    }

    // ------------------------------------------------------------ crossover

    /** Nothing happens, or between 1 and |other| consecutive bytes of `other` are
        inserted and the length becomes aligned. */
    method CrossOverInsert(data: Data, other: Data) returns (r: Data)
      requires CanHold(|data| + |other|)
      ensures r == data || InsertedFrom(data, other, r)
      ensures |data| < maxLen && |data| % sizeAlignment + |other| >= sizeAlignment ==>
                |data| < |r| <= maxLen && |r| <= |data| + |other| && Aligned(|r|, sizeAlignment)
      ensures |data| >= maxLen || |data| % sizeAlignment + |other| < sizeAlignment ==> r == data
    {
      if |data| % sizeAlignment + |other| < sizeAlignment {
        return data;
      }
      var wanted := Draw(|other|);
      wanted := wanted + 1;
      if |data| < maxLen {
        CrossCountInRange(sizeAlignment, maxLen, |data|, |other|, wanted);
      }
      var n := RoundUpToAdd(sizeAlignment, maxLen, |data|, wanted);
      if n > |other| {
        n := n - sizeAlignment;
      }
      var first := Draw(|other| - n + 1);
      var pos := Draw(|data| + 1);
      r := Inserted(data, pos, Slice(other, first, n));
    }

    /** At most half of the data, but at least one byte, is overwritten. */
    method CrossOverOverwrite(data: Data, other: Data) returns (r: Data)
      requires data != [] && other != []
      ensures |r| == |data|
      ensures OverwrittenFrom(data, other, r)
    {
      var maxSize := if |data| / 2 > 1 then |data| / 2 else 1;
      var first := Draw(|other|);
      maxSize := if |other| - first < maxSize then |other| - first else maxSize;
      var n := Draw(maxSize);
      n := n + 1;
      var pos := Draw(|data| - n + 1);
      r := Overwritten(data, pos, Slice(other, first, n));
    }

    method CrossOver(data: Data, other: Data) returns (r: Data)
      requires data != [] && other != [] && CanHold(|data| + |other|)
      ensures |data| <= |r| <= |data| + |other|
      ensures r == data || OverwrittenFrom(data, other, r) || InsertedFrom(data, other, r)
      ensures |data| >= maxLen || |data| % sizeAlignment + |other| >= sizeAlignment ==>
                OverwrittenFrom(data, other, r) || InsertedFrom(data, other, r)
      ensures |data| >= maxLen ==> |r| == |data|
      ensures |r| == |data| || (|r| <= maxLen && Aligned(|r|, sizeAlignment))
    {
      if |data| >= maxLen {
        r := CrossOverOverwrite(data, other);
      } else {
        var insert: bool := *;
        if insert {
          r := CrossOverInsert(data, other);
        } else {
          r := CrossOverOverwrite(data, other);
        }
      }
    }

    // --------------------------------------------------------------- choice

    method MutateSameSize(data: Data) returns (ok: bool, r: Data)
      requires data != []
      ensures |r| == |data| && (!ok ==> r == data)
      ensures ok ==> SameSizeMutant(dictionary, cmpDictionary.dictionary, data, r)
    {
      ok := true;
      var choice := Draw(5);
      match choice {
        case 0 => r := FlipBit(data);
        case 1 => r := SwapBytes(data);
        case 2 => r := ChangeByte(data);
        case 3 => ok, r := OverwriteFromDictionary(data);
        case _ => ok, r := OverwriteFromCmpDictionary(data);
      }
    }

    method MutateIncreaseSize(data: Data) returns (ok: bool, r: Data)
      requires CanHold(|data| + MAX_INSERT_SIZE) && InsertSafe(sizeAlignment, maxLen, |data|)
      ensures !ok ==> r == data
      ensures ok ==> InsertedEntry(dictionary, data, r) || (Grown(data, r) && |r| <= |data| + MAX_INSERT_SIZE)
      ensures dictionary == [] && ok && |data| < maxLen ==> Aligned(|r|, sizeAlignment)
      ensures |data| < maxLen ==> |r| <= LengthBound(maxLen, dictionary)
    {
      var choice := Draw(2);
      if choice == 0 {
        r := InsertBytes(data);
        ok := true;
      } else {
        ok, r := InsertFromDictionary(data);
      }
    }

    /** One try. */
    method TryMutate(data: Data) returns (ok: bool, r: Data)
      requires data != []
      requires CanHold(|data| + MAX_INSERT_SIZE) && InsertSafe(sizeAlignment, maxLen, |data|)
      ensures !ok ==> r == data
      ensures ok ==> Mutated(maxLen, dictionary, cmpDictionary.dictionary, data, r)
      ensures ok && maxLen > 0 ==> r != [] && |r| <= LengthBound(maxLen, dictionary)
      ensures maxLen > 0 && |data| > maxLen ==> ok && |r| <= maxLen
      ensures maxLen == 0 ==> (ok <==> |data| > sizeAlignment) && (ok ==> |r| == 0 || |r| == sizeAlignment)
      ensures ok && dictionary == [] ==> |r| == |data| || Aligned(|r|, sizeAlignment)
    {
      if maxLen > 0 {
        RoomForOne(sizeAlignment, maxLen, |data| + MAX_INSERT_SIZE);
      }
      var choice := Draw(3);
      if |data| > maxLen {
        ok, r := EraseBytes(data);
      } else if choice == 0 {
        ok, r := MutateSameSize(data);
      } else if choice == 1 || |data| == maxLen {
        ok, r := EraseBytes(data);
      } else {
        ok, r := MutateIncreaseSize(data);
      }
    }

    /** Fifteen tries; an input over a positive limit shrinks on the first one, and with
        limit 0 all that can happen is that one erasure. Without a static dictionary a
        new length is always an aligned one. */
    method Mutate(data: Data) returns (ok: bool, r: Data)
      requires data != []
      requires CanHold(|data| + MAX_INSERT_SIZE) && InsertSafe(sizeAlignment, maxLen, |data|)
      ensures GoodMutant(data, r, sizeAlignment, maxLen, dictionary)
      ensures if ok then Mutated(maxLen, dictionary, cmpDictionary.dictionary, data, r) else r == data
      ensures maxLen > 0 && |data| > maxLen ==> ok && |r| <= maxLen
      ensures maxLen == 0 ==> (ok <==> |data| > sizeAlignment)
    {
      for iter := 0 to 15
        invariant iter > 0 && maxLen > 0 ==> |data| <= maxLen
        invariant iter > 0 && maxLen == 0 ==> |data| <= sizeAlignment
      {
        ok, r := TryMutate(data);
        if ok {
          return;
        }
      }
      return false, data;
    }

    method SetMetadata(metadata: ExecutionMetadata) returns (ok: bool)
      modifies cmpDictionary
      ensures ok == Decode(metadata.cmpData).ok
      ensures cmpDictionary.dictionary == DictionaryOf(metadata.cmpData)
      ensures HeadsAscend(cmpDictionary.dictionary) <==> ok || PairsAscend(Decode(metadata.cmpData).pairs)
      ensures multiset(cmpDictionary.dictionary) == multiset(Oriented(Decode(metadata.cmpData).pairs))
    {
      ok := cmpDictionary.SetFromMetadata(metadata);
      SortSorts(Oriented(Decode(metadata.cmpData).pairs));
      CompleteAfterMetadata(metadata.cmpData);
      LookupComplete(DictionaryOf(metadata.cmpData));
    }

    /** Every mutant of non-empty inputs is a good one of its origin, derived from it by
        one mutation or one crossover with one of the inputs. */
    method MutateMany(inputs: seq<Data>, metadata: ExecutionMetadata, numMutants: nat)
      returns (mutants: seq<Data>, origins: seq<nat>)
      requires inputs != [] && (forall d <- inputs :: d != [])
      requires CanHold(2 * Longest(inputs) + MAX_INSERT_SIZE)
      requires forall d <- inputs :: InsertSafe(sizeAlignment, maxLen, |d|)
      modifies cmpDictionary
      ensures |mutants| == |origins| == numMutants
      ensures forall k | 0 <= k < numMutants ::
                origins[k] < |inputs| && GoodMutant(inputs[origins[k]], mutants[k], sizeAlignment, maxLen, dictionary)
      ensures forall k | 0 <= k < numMutants ::
                Derived(maxLen, dictionary, DictionaryOf(metadata.cmpData), inputs, inputs[origins[k]], mutants[k])
    {
      var _ := SetMetadata(metadata);
      mutants, origins := MutateAll(inputs, numMutants);
    }

    method MutateAll(inputs: seq<Data>, numMutants: nat) returns (mutants: seq<Data>, origins: seq<nat>)
      requires inputs != [] && (forall d <- inputs :: d != [])
      requires CanHold(2 * Longest(inputs) + MAX_INSERT_SIZE)
      requires forall d <- inputs :: InsertSafe(sizeAlignment, maxLen, |d|)
      ensures |mutants| == |origins| == numMutants
      ensures forall k | 0 <= k < numMutants ::
                origins[k] < |inputs| && GoodMutant(inputs[origins[k]], mutants[k], sizeAlignment, maxLen, dictionary)
      ensures forall k | 0 <= k < numMutants ::
                Derived(maxLen, dictionary, cmpDictionary.dictionary, inputs, inputs[origins[k]], mutants[k])
    {
      mutants, origins := [], [];
      for i := 0 to numMutants
        invariant |mutants| == |origins| == i
        invariant forall k | 0 <= k < i ::
                    origins[k] < |inputs| && GoodMutant(inputs[origins[k]], mutants[k], sizeAlignment, maxLen, dictionary)
        invariant forall k | 0 <= k < i ::
                    Derived(maxLen, dictionary, cmpDictionary.dictionary, inputs, inputs[origins[k]], mutants[k])
      {
        var origin := Draw(|inputs|);
        var mutant := MutateOne(inputs, origin);
        mutants, origins := mutants + [mutant], origins + [origin];
      }
    }

    method MutateOne(inputs: seq<Data>, origin: nat) returns (mutant: Data)
      requires origin < |inputs| && (forall d <- inputs :: d != [])
      requires CanHold(2 * Longest(inputs) + MAX_INSERT_SIZE)
      requires forall d <- inputs :: InsertSafe(sizeAlignment, maxLen, |d|)
      ensures GoodMutant(inputs[origin], mutant, sizeAlignment, maxLen, dictionary)
      ensures Derived(maxLen, dictionary, cmpDictionary.dictionary, inputs, inputs[origin], mutant)
    {
      mutant := inputs[origin];
      assert mutant in inputs;
      var cross: bool := *;
      if |mutant| <= maxLen && cross {
        var k := Draw(|inputs|);
        assert inputs[k] in inputs;
        mutant := CrossOver(mutant, inputs[k]);
      } else {
        var _, m := Mutate(mutant);
        mutant := m;
      }
    }
  }

  /** Not empty and within the length bound (the limit itself when no static entry is
      longer than one byte), and, without a static dictionary, of the origin's length
      or an aligned one. With limit 0 an input of at most one
      alignment stays as it is and a longer one is cut to one alignment or to nothing. */
  ghost predicate GoodMutant(data: Data, mutant: Data, alignment: nat, maxLen: nat, dict: seq<Data>)
    requires alignment > 0
  {
    && (maxLen > 0 ==> mutant != [] && |mutant| <= LengthBound(maxLen, dict))
    && (maxLen == 0 && |data| <= alignment ==> mutant == data)
    && (maxLen == 0 && |data| > alignment ==> |mutant| == 0 || |mutant| == alignment)
    && (dict == [] ==> |mutant| == |data| || Aligned(|mutant|, alignment))
  }

  const MAX_NUM_SUGGESTIONS: nat := 100

  /** Some entry is a prefix of the data from idx on, and more than two bytes are left. */
  predicate HasMatch(dict: seq<Entry>, data: Data, idx: nat)
  {
    idx + 2 < |data| && Matches(dict, data[idx..]) != []
  }

  ghost predicate Replaced(dict: seq<Entry>, data: Data, idx: nat, r: Data)
  {
    idx < |data| && exists p <- dict :: IsPrefix(p.first, data[idx..]) && r == Overwritten(data, idx, p.second)
  }

  /** The step at which a search that starts at `start` and wraps around reaches `idx`. */
  lemma Rotation(start: nat, idx: nat, n: nat) returns (k: nat)
    requires start < n && idx < n
    ensures k < n && Wrapped(start, k, n) == idx
  {
    k := if idx >= start then idx - start else idx - start + n;
    DivModUnique(start + k, n, if idx >= start then 0 else 1, idx);
  }
}
