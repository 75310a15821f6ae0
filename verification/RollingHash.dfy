/** The rolling hash against the from-scratch polynomial hash. */
module RollingHashes {
  import opened Bytes
  import opened Sequences

  const MULTIPLIER: nat := W32 - 267

  /** The implicit conversion of a machine word to 32 bits. */
  function Low(x: nat): U32 { x % W32 }

  // ---------------------------------------------------------- the reference

  /** `TestOnlyUpdate`: add one item to a hash. */
  function TestOnlyUpdate(hash: U32, add: U32): U32 { (hash * MULTIPLIER + add) % W32 }

  /** The hash of a list of items, computed from scratch. */
  function Reference(items: seq<nat>): U32 {
    if items == [] then 0 else TestOnlyUpdate(Reference(items[..|items| - 1]), Low(items[|items| - 1]))
  }

  /** The last `n` items. */
  function Window(items: seq<nat>, n: nat): seq<nat> {
    if |items| <= n then items else items[|items| - n..]
  }

  lemma WindowExact(items: seq<nat>, n: nat)
    ensures var w := Window(items, n);
            |w| == (if |items| < n then |items| else n) && items == items[..|items| - |w|] + w
  {
  }

  // ----------------------------------------------- polynomials over integers

  function Pow(n: nat): nat { if n == 0 then 1 else MULTIPLIER * Pow(n - 1) }

  function Poly(items: seq<nat>): int {
    if items == [] then 0 else Poly(items[..|items| - 1]) * MULTIPLIER + Low(items[|items| - 1])
  }

  lemma {:induction false} ReferenceIsPoly(items: seq<nat>)
    ensures Reference(items) == Poly(items) % W32
  {
    if items != [] {
      var init := items[..|items| - 1];
      ReferenceIsPoly(init);
      HornerStep(Poly(init), Low(items[|items| - 1]));
    }
  }

  /** A step of the hash may start from any representative modulo 2^32. */
  lemma HornerStep(p: int, x: U32)
    ensures TestOnlyUpdate(p % W32, x) == (p * MULTIPLIER + x) % W32
  {
    var q := p / W32;
    assert p * MULTIPLIER + x == (p % W32) * MULTIPLIER + x + (q * MULTIPLIER) * W32;
    Shift((p % W32) * MULTIPLIER + x, q * MULTIPLIER);
  }

  lemma {:induction false} PolyHead(items: seq<nat>)
    requires items != []
    ensures Poly(items) == Low(items[0]) * Pow(|items| - 1) + Poly(items[1..])
  {
    var n := |items| - 1;
    if n > 0 {
      var init := items[..n];
      PolyHead(init);
      assert items[1..][..n - 1] == init[1..] && items[1..][n - 1] == items[n] && items[0] == init[0];
      Scale(Low(items[0]), Pow(n - 1), Poly(init[1..]), Pow(n), Poly(init));
    }
  }

  lemma Scale(a: int, p: int, r: int, q: int, w: int)
    requires w == a * p + r && q == MULTIPLIER * p
    ensures w * MULTIPLIER == a * q + r * MULTIPLIER
  {
    assert a * q == (a * p) * MULTIPLIER;
  }

  lemma PolySnoc(items: seq<nat>, x: nat)
    ensures Poly(items + [x]) == Poly(items) * MULTIPLIER + Low(x)
  {
    assert (items + [x])[..|items|] == items;
  }

  /** Sliding a full window by one item. */
  lemma PolySlide(window: seq<nat>, x: nat)
    requires window != []
    ensures Poly(window[1..] + [x]) == Poly(window) * MULTIPLIER - Low(window[0]) * Pow(|window|) + Low(x)
  {
    PolySnoc(window[1..], x);
    PolyHead(window);
    Scale(Low(window[0]), Pow(|window| - 1), Poly(window[1..]), Pow(|window|), Poly(window));
  }

  // ------------------------------------------------------ the hash of raw items

  /** The sum of items[i] * MULTIPLIER^(n - 1 - i), over the items as they are. */
  function Polynomial(items: seq<nat>): nat {
    if items == [] then 0 else items[0] * Pow(|items| - 1) + Polynomial(items[1..])
  }

  lemma {:induction false} PolynomialSnoc(items: seq<nat>, x: nat)
    ensures Polynomial(items + [x]) == Polynomial(items) * MULTIPLIER + x
  {
    var all := items + [x];
    if items == [] {
      assert all[1..] == [] && Pow(0) == 1;
    } else {
      PolynomialSnoc(items[1..], x);
      assert all[0] == items[0] && all[1..] == items[1..] + [x];
      var a, p, r := items[0], Pow(|items| - 1), Polynomial(items[1..]);
      assert Pow(|all| - 1) == MULTIPLIER * p;
      Scale(a, p, r, MULTIPLIER * p, a * p + r);
    }
  }

  /** The from-scratch hash of any items, of whatever width, is their polynomial modulo 2^32. */
  lemma {:induction false} ReferenceIsPolynomial(items: seq<nat>)
    ensures Reference(items) == Polynomial(items) % 0x1_0000_0000
  {
    if items != [] {
      var n := |items| - 1;
      var init, x := items[..n], items[n];
      ReferenceIsPolynomial(init);
      PolynomialSnoc(init, x);
      assert items == init + [x];
      HornerStep(Polynomial(init), Low(x));
      var q := x / W32;
      assert Polynomial(init) * MULTIPLIER + x == Polynomial(init) * MULTIPLIER + Low(x) + q * W32;
      Shift(Polynomial(init) * MULTIPLIER + Low(x), q);
    }
  }

  lemma HashIsPolynomial(items: seq<nat>, n: nat)
    ensures Reference(Window(items, n)) == Polynomial(Window(items, n)) % 0x1_0000_0000
  {
    ReferenceIsPolynomial(Window(items, n));
  }

  /** In particular: the low 32 bits of one item; and the multiplier is 2^32 - 267. */
  lemma ReferenceOfTwo(x: nat, y: nat)
    ensures Reference([x]) == x % 0x1_0000_0000
    ensures Reference([x, y]) == (x * 0xFFFF_FEF5 + y) % 0x1_0000_0000
  {
    ReferenceIsPolynomial([x]);
    ReferenceIsPolynomial([x, y]);
    PolynomialSnoc([], x);
    PolynomialSnoc([x], y);
    assert [] + [x] == [x] && [x] + [y] == [x, y];
  }

  // --------------------------------------------------------- the rolling form

  /** `Update` with its 64-bit intermediate computation. */
  function Update(power: U64, hash: U32, add: U32, remove: U32): U32 {
    ((hash * MULTIPLIER) % W64 - (remove * power) % W64 + add) % W64 % W32
  }

  /** The update computes its formula modulo 2^32, whatever the overflows. */
  lemma UpdateIsExact(power: U64, hash: U32, add: U32, remove: U32, p: int, h: int)
    requires power % W32 == p % W32 && hash == h % W32
    ensures Update(power, hash, add, remove) == (h * MULTIPLIER - remove * p + add) % W32
  {
    var x, y := hash * MULTIPLIER, remove * power;
    var a, b := x / W64, y / W64;
    var raw := x % W64 - y % W64 + add;
    Mod64Mod32(raw);
    var i, j := (h - hash) / W32, (power - p) / W32;
    assert h == hash + i * W32;
    assert power - p == j * W32 by {
      Difference(power, p);
    }
    var k := -(a * W32) + (b * W32) - i * MULTIPLIER - remove * j;
    assert x == x % W64 + a * W32 * W32 && y == y % W64 + b * W32 * W32;
    assert y == remove * p + remove * j * W32 by {
      assert remove * (p + j * W32) == remove * p + remove * j * W32;
    }
    assert h * MULTIPLIER == x + i * MULTIPLIER * W32;
    assert raw == (h * MULTIPLIER - remove * p + add) + k * W32;
    Shift(h * MULTIPLIER - remove * p + add, k);
  }

  lemma Difference(x: int, y: int)
    requires x % W32 == y % W32
    ensures (x - y) % W32 == 0 && x - y == (x - y) / W32 * W32
  {
  }

  /** The item that leaves the window when `x` enters. */
  function Leaving(items: seq<nat>, n: nat, x: nat): U32 {
    if n == 0 then Low(x) else if |items| >= n then Low(items[|items| - n]) else 0
  }

  /** One rolling step turns the hash of a window into the hash of the next. */
  lemma RollingStep(power: U64, items: seq<nat>, n: nat, x: nat)
    requires power % W32 == Pow(n) % W32
    ensures Update(power, Reference(Window(items, n)), Low(x), Leaving(items, n, x)) == Reference(Window(items + [x], n))
  {
    var window, next := Window(items, n), Window(items + [x], n);
    ReferenceIsPoly(window);
    ReferenceIsPoly(next);
    UpdateIsExact(power, Reference(window), Low(x), Leaving(items, n, x), Pow(n), Poly(window));
    if n == 0 {
      assert window == [] && next == [];
    } else if |items| >= n {
      assert window[0] == items[|items| - n] && next == window[1..] + [x];
      PolySlide(window, x);
    } else {
      assert window == items && next == items + [x];
      PolySnoc(items, x);
    }
  }

  class RollingHash {
    var hash: U32
    var power: U64
    ghost var size: nat

    ghost predicate Valid()
      reads this
    {
      power == Pow(size) % W64
    }

    constructor ()
      ensures hash == 0 && power == 0
    {
      hash, power := 0, 0;
    }

    /** Clears the hash and computes MULTIPLIER^n with 64-bit wrap-around. */
    method Reset(n: nat)
      modifies this
      ensures Valid() && hash == 0 && size == n
    {
      hash, power, size := 0, 1, n;
      for i := 0 to n
        invariant hash == 0 && size == n && power == Pow(i) % W64
      {
        PowerStep(power, i);
        power := (power * MULTIPLIER) % W64;
      }
    }

    /** The three-argument update: from the hash of a window over `items` to that
        of the window after `x`. */
    method Updated(hash: U32, add: U32, remove: U32, ghost items: seq<nat>, ghost x: nat) returns (r: U32)
      requires Valid() && hash == Reference(Window(items, size))
      requires add == Low(x) && remove == Leaving(items, size, x)
      ensures r == Reference(Window(items + [x], size))
    {
      Mod64Mod32(Pow(size));
      RollingStep(power, items, size, x);
      r := Update(power, hash, add, remove);
    }
  }

  lemma PowerStep(power: U64, i: nat)
    requires power == Pow(i) % W64
    ensures (power * MULTIPLIER) % W64 == Pow(i + 1) % W64
  {
    var k := Pow(i) / W64;
    assert Pow(i) == power + k * W64;
    Shift64(power * MULTIPLIER, k * MULTIPLIER);
    assert Pow(i + 1) == power * MULTIPLIER + (k * MULTIPLIER) * W64;
  }

  // ------------------------------------------------------------- ring buffer

  /** The cell that holds the item pushed `i` pushes ago. */
  function CellOf(lastAdded: nat, size: nat, i: nat): nat
    requires i < size && lastAdded < size
  {
    if i <= lastAdded then lastAdded - i else lastAdded - i + size
  }

  /** Going back from the last added cell, the buffer holds the pushed items,
      newest first, and zeros before them. */
  predicate RingHolds(buffer: seq<nat>, lastAdded: nat, size: nat, pushed: seq<nat>)
    requires lastAdded < size <= |buffer|
  {
    forall i :: 0 <= i < size ==>
      buffer[CellOf(lastAdded, size, i)] == if i < |pushed| then pushed[|pushed| - 1 - i] else 0
  }

  lemma RingAfterPush(buffer: seq<nat>, lastAdded: nat, size: nat, pushed: seq<nat>, item: nat)
    requires lastAdded < size <= |buffer| && RingHolds(buffer, lastAdded, size, pushed)
    ensures var pos := if lastAdded + 1 >= size then 0 else lastAdded + 1;
            && Low(buffer[pos]) == Leaving(pushed, size, item)
            && RingHolds(buffer[pos := item], pos, size, pushed + [item])
  {
    var pos := if lastAdded + 1 >= size then 0 else lastAdded + 1;
    assert pos == CellOf(lastAdded, size, size - 1);
    forall i | 0 <= i < size
      ensures buffer[pos := item][CellOf(pos, size, i)] ==
              if i < |pushed| + 1 then (pushed + [item])[|pushed| - i] else 0
    {
      assert i > 0 ==> CellOf(pos, size, i) == CellOf(lastAdded, size, i - 1) != pos;
    }
  }

  function Init(items: seq<nat>): seq<nat> { if items == [] then [] else items[..|items| - 1] }

  /** The hash after a history of pushes: that of the last `size` items, computed from
      scratch; a ring of size 0 has one cell and the power of no cell, and its hash is
      what the last item adds to the hash of the whole history. */
  function RingHash(items: seq<nat>, size: nat): U32 {
    if size > 0 then Reference(Window(items, size)) else (Reference(items) - Reference(Init(items))) % W32
  }

  /** The window law holds for every ring of positive size, and for size 0 exactly when
      the last item leaves the hash of the history unchanged. */
  lemma WindowLaw(items: seq<nat>, size: nat)
    ensures RingHash(items, size) == Reference(Window(items, size)) <==>
            size > 0 || Reference(items) == Reference(Init(items))
  {
    if size == 0 {
      assert Window(items, 0) == [];
      var d := Reference(items) - Reference(Init(items));
      assert 0 - W32 < d < W32;
    }
  }

  /** A ring of size 0 breaks the law on its first push, unless the item hashes to 0. */
  lemma ZeroSizeRing(item: nat)
    ensures RingHash([item], 0) == Reference(Window([item], 0)) <==> Low(item) == 0
  {
    WindowLaw([item], 0);
    assert [item][..0] == [];
  }

  /** The update of a ring of size 0. */
  lemma ZeroSizeStep(power: U64, items: seq<nat>, x: nat)
    requires power == Pow(0) % W64
    ensures Update(power, RingHash(items, 0), Low(x), Leaving(items, 1, x)) == RingHash(items + [x], 0)
  {
    var before: int, now: int := Reference(Init(items)), Reference(items);
    var leaving: int := Leaving(items, 1, x);
    UpdateIsExact(power, RingHash(items, 0), Low(x), leaving, Pow(0), now - before);
    assert leaving * Pow(0) == leaving;
    ReferenceSnoc(items, x);
    LastStep(items, x);
    DifferenceStep(before, now, Reference(items + [x]), leaving, Low(x));
  }

  lemma ReferenceSnoc(items: seq<nat>, x: nat)
    ensures Reference(items + [x]) == TestOnlyUpdate(Reference(items), Low(x)) && Init(items + [x]) == items
  {
    assert (items + [x])[..|items|] == items && (items + [x])[|items|] == x;
  }

  lemma LastStep(items: seq<nat>, x: nat)
    ensures Reference(items) == TestOnlyUpdate(Reference(Init(items)), Leaving(items, 1, x))
  {
    if items == [] {
      assert Reference(Init(items)) == 0 && Leaving(items, 1, x) == 0;
    }
  }

  lemma DifferenceStep(before: U32, now: U32, next: U32, leaving: U32, x: U32)
    requires now == TestOnlyUpdate(before, leaving) && next == TestOnlyUpdate(now, x)
    ensures (next as int - now as int) % W32 == ((now as int - before as int) * MULTIPLIER - leaving + x) % W32
  {
    var a, b := (now * MULTIPLIER + x) / W32, (before * MULTIPLIER + leaving) / W32;
    var d := (now as int - before as int) * MULTIPLIER - leaving + x;
    assert next as int - now as int == d + (b - a) * W32;
    Shift(d, b - a);
  }

  lemma RingStep(power: U64, items: seq<nat>, size: nat, x: nat)
    requires power == Pow(size) % W64
    ensures Update(power, RingHash(items, size), Low(x), Leaving(items, if size == 0 then 1 else size, x)) ==
            RingHash(items + [x], size)
  {
    if size == 0 {
      ZeroSizeStep(power, items, x);
    } else {
      Mod64Mod32(Pow(size));
      RollingStep(power, items, size, x);
    }
  }

  class HashedRingBuffer {
    const buffer: array<nat>
    const hash: RollingHash
    var lastAdded: nat
    var size: nat
    ghost var pushed: seq<nat>

    function Repr(): set<object> { {this, buffer, hash} }

    /** A ring of size 0 uses one cell. */
    function Cells(): nat
      reads this
    {
      if size == 0 then 1 else size
    }

    ghost predicate Valid()
      reads Repr()
    {
      && Cells() <= buffer.Length && lastAdded < Cells()
      && RingHolds(buffer[..], lastAdded, Cells(), pushed)
      && hash.Valid() && hash.size == size
      && hash.hash == RingHash(pushed, size)
    }

    constructor (capacity: nat)
      ensures fresh(Repr()) && buffer.Length == capacity
    {
      buffer := new nat[capacity](_ => 0);
      hash := new RollingHash();
      lastAdded, size, pushed := 0, 0, [];
    }

    method Reset(newSize: nat)
      requires newSize <= buffer.Length && buffer.Length > 0
      modifies Repr()
      ensures Valid() && size == newSize && pushed == []
    {
      forall i | 0 <= i < buffer.Length {
        buffer[i] := 0;
      }
      lastAdded, size, pushed := 0, newSize, [];
      hash.Reset(newSize);
    }

    /** Adds an item, evicting the oldest; the hash is that of the last `size`
        items, computed from scratch, when the size is positive. */
    method Push(item: nat) returns (h: U32)
      requires Valid()
      modifies Repr()
      ensures Valid() && size == old(size) && pushed == old(pushed) + [item]
      ensures h == hash.hash == RingHash(pushed, size)
      ensures size > 0 ==> h == Reference(Window(pushed, size)) == Polynomial(Window(pushed, size)) % 0x1_0000_0000
    {
      HashIsPolynomial(pushed + [item], size);
      var evicted := Store(item);
      RingStep(hash.power, pushed, size, item);
      hash.hash := Update(hash.power, hash.hash, Low(item), Low(evicted));
      pushed := pushed + [item];
      h := hash.hash;
    }

    /** Overwrites the oldest cell. */
    method Store(item: nat) returns (evicted: nat)
      requires lastAdded < Cells() <= buffer.Length && RingHolds(buffer[..], lastAdded, Cells(), pushed)
      modifies this`lastAdded, buffer
      ensures lastAdded < Cells() && RingHolds(buffer[..], lastAdded, Cells(), pushed + [item])
      ensures Low(evicted) == Leaving(pushed, Cells(), item)
    {
      var pos := lastAdded + 1;
      if pos >= size {
        pos := 0;
      }
      RingAfterPush(buffer[..], lastAdded, Cells(), pushed, item);
      evicted := buffer[pos];
      ghost var was := buffer[..];
      buffer[pos] := item;
      assert buffer[..] == was[pos := item];
      lastAdded := pos;
    }
  }

  // -------------------------------------------------------------- call stack

  datatype Entry = Entry(pc: nat, sp: nat)

  /** Pops the frames that are not strictly above `sp`. */
  function Unwind(stack: seq<Entry>, sp: nat): seq<Entry> {
    if stack != [] && stack[|stack| - 1].sp <= sp then Unwind(stack[..|stack| - 1], sp) else stack
  }

  /** The call stack without a depth limit. */
  function Unbounded(entries: seq<Entry>): seq<Entry> {
    if entries == [] then []
    else
      var e := entries[|entries| - 1];
      Unwind(Unbounded(entries[..|entries| - 1]), e.sp) + [e]
  }

  predicate Descending(stack: seq<Entry>) {
    forall i, j :: 0 <= i < j < |stack| ==> stack[i].sp > stack[j].sp
  }

  function Pcs(stack: seq<Entry>): seq<nat> {
    if stack == [] then [] else Pcs(stack[..|stack| - 1]) + [stack[|stack| - 1].pc]
  }

  function Sps(stack: seq<Entry>): seq<nat> {
    if stack == [] then [] else Sps(stack[..|stack| - 1]) + [stack[|stack| - 1].sp]
  }

  /** The PCs and stack pointers of a stack, frame by frame. */
  lemma {:induction false} FrameAt(stack: seq<Entry>, i: nat)
    requires i < |stack|
    ensures |Pcs(stack)| == |Sps(stack)| == |stack| && Pcs(stack)[i] == stack[i].pc && Sps(stack)[i] == stack[i].sp
  {
    var n := |stack| - 1;
    if i < n {
      FrameAt(stack[..n], i);
    } else if n > 0 {
      FrameAt(stack[..n], 0);
    }
  }

  /** For every frame, the from-scratch hash of the window that ends in it. */
  function FrameHashes(pcs: seq<nat>, window: nat): seq<U32> {
    if pcs == [] then [] else FrameHashes(pcs[..|pcs| - 1], window) + [Reference(Window(pcs, window))]
  }

  lemma {:induction false} FrameHashAt(pcs: seq<nat>, window: nat, i: nat)
    requires i < |pcs|
    ensures |FrameHashes(pcs, window)| == |pcs|
    ensures FrameHashes(pcs, window)[i] == Reference(Window(pcs[..i + 1], window))
  {
    var init := pcs[..|pcs| - 1];
    if i < |init| {
      FrameHashAt(init, window, i);
      assert init[..i + 1] == pcs[..i + 1];
    } else {
      assert pcs[..i + 1] == pcs;
      if init != [] {
        FrameHashAt(init, window, 0);
      }
    }
  }

  lemma {:induction false} StackLengths(stack: seq<Entry>, window: nat)
    ensures |Pcs(stack)| == |Sps(stack)| == |FrameHashes(Pcs(stack), window)| == |stack|
  {
    if stack != [] {
      StackLengths(stack[..|stack| - 1], window);
    }
  }

  lemma StackPop(stack: seq<Entry>, window: nat)
    requires stack != []
    ensures var n := |stack| - 1;
            && |Pcs(stack)| == |Sps(stack)| == |FrameHashes(Pcs(stack), window)| == n + 1
            && Pcs(stack)[..n] == Pcs(stack[..n]) && Sps(stack)[..n] == Sps(stack[..n])
            && Sps(stack)[n] == stack[n].sp
            && FrameHashes(Pcs(stack), window)[..n] == FrameHashes(Pcs(stack[..n]), window)
            && FrameHashes(Pcs(stack), window)[n] == Reference(Window(Pcs(stack), window))
  {
    StackLengths(stack[..|stack| - 1], window);
    StackLengths(stack, window);
  }

  lemma StackSnoc(stack: seq<Entry>, e: Entry, window: nat)
    ensures Pcs(stack + [e]) == Pcs(stack) + [e.pc] && Sps(stack + [e]) == Sps(stack) + [e.sp]
    ensures FrameHashes(Pcs(stack) + [e.pc], window) ==
            FrameHashes(Pcs(stack), window) + [Reference(Window(Pcs(stack) + [e.pc], window))]
  {
    assert (stack + [e])[..|stack|] == stack;
    assert (Pcs(stack) + [e.pc])[..|Pcs(stack)|] == Pcs(stack);
  }

  /** Unwinding a descending stack keeps exactly the frames above `sp`. */
  lemma {:induction false} UnwindKeepsAbove(stack: seq<Entry>, sp: nat)
    requires Descending(stack)
    ensures var u := Unwind(stack, sp);
            && u <= stack && (forall i :: 0 <= i < |u| ==> u[i].sp > sp)
            && (forall i :: |u| <= i < |stack| ==> stack[i].sp <= sp)
  {
    if stack != [] && stack[|stack| - 1].sp <= sp {
      UnwindKeepsAbove(stack[..|stack| - 1], sp);
    }
  }

  lemma UnwindOfTake(stack: seq<Entry>, n: nat, sp: nat)
    requires Descending(stack)
    ensures Unwind(Take(stack, n), sp) == Take(Unwind(stack, sp), n)
  {
    UnwindKeepsAbove(stack, sp);
    UnwindKeepsAbove(Take(stack, n), sp);
    CutIsUnique(Take(stack, n), sp, |Unwind(Take(stack, n), sp)|, |Take(Unwind(stack, sp), n)|);
  }

  lemma CutIsUnique(stack: seq<Entry>, sp: nat, a: nat, b: nat)
    requires a <= |stack| && b <= |stack|
    requires forall i :: 0 <= i < |stack| ==> (stack[i].sp > sp <==> i < a)
    requires forall i :: 0 <= i < |stack| ==> (stack[i].sp > sp <==> i < b)
    ensures a == b
  {
    if a < |stack| {
      assert stack[a].sp <= sp;
    }
    if b < |stack| {
      assert stack[b].sp <= sp;
    }
  }

  lemma {:induction false} UnboundedDescends(entries: seq<Entry>)
    ensures Descending(Unbounded(entries))
  {
    if entries != [] {
      var init := entries[..|entries| - 1];
      UnboundedDescends(init);
      UnwindKeepsAbove(Unbounded(init), entries[|entries| - 1].sp);
    }
  }

  class CallStack {
    const pcs: array<nat>
    const sps: array<nat>
    const hashes: array<U32>
    const rolling: RollingHash
    var depth: nat
    var window: nat
    ghost var entries: seq<Entry>

    function Repr(): set<object> { {this, pcs, sps, hashes, rolling} }

    /** The kept stack is the first frames of the unbounded one, and every live
        frame has the from-scratch hash of the window that ends in it. */
    ghost predicate Valid()
      reads Repr()
    {
      && pcs != sps && pcs.Length == sps.Length == hashes.Length
      && rolling.Valid() && rolling.size == window
      && Represents(Take(Unbounded(entries), pcs.Length))
    }

    ghost predicate Represents(stack: seq<Entry>)
      reads Repr()
    {
      && depth == |stack| <= pcs.Length == sps.Length == hashes.Length
      && pcs[..depth] == Pcs(stack) && sps[..depth] == Sps(stack)
      && hashes[..depth] == FrameHashes(Pcs(stack), window)
    }

    constructor (maxDepth: nat)
      ensures fresh(Repr()) && pcs.Length == sps.Length == hashes.Length == maxDepth && pcs != sps
    {
      pcs := new nat[maxDepth](_ => 0);
      sps := new nat[maxDepth](_ => 0);
      hashes := new U32[maxDepth](_ => 0);
      rolling := new RollingHash();
      depth, window, entries := 0, 0, [];
    }

    method Reset(windowSize: nat)
      requires pcs.Length == sps.Length == hashes.Length && pcs != sps
      modifies Repr()
      ensures Valid() && window == windowSize && entries == []
    {
      depth, window, entries := 0, windowSize, [];
      rolling.Reset(windowSize);
    }

    method OnFunctionEntry(pc: nat, sp: nat)
      requires Valid()
      modifies Repr()
      ensures Valid() && window == old(window) && entries == old(entries) + [Entry(pc, sp)]
    {
      ghost var kept := Take(Unbounded(entries), pcs.Length);
      KeptAfter(entries, Entry(pc, sp), pcs.Length);
      entries := entries + [Entry(pc, sp)];
      UnwindTo(sp, kept);
      if depth < pcs.Length {
        Record(pc, sp, Unwind(kept, sp));
      }
    }

    /** The unwinding loop. */
    method UnwindTo(sp: nat, ghost kept: seq<Entry>)
      requires Represents(kept)
      modifies this`depth
      ensures Represents(Unwind(kept, sp))
    {
      ghost var stack := kept;
      while depth > 0 && sps[depth - 1] <= sp
        invariant Represents(stack) && Unwind(stack, sp) == Unwind(kept, sp)
      {
        StackPop(stack, window);
        TopOf(sps, depth);
        stack := stack[..depth - 1];
        depth := depth - 1;
        PrefixOf(pcs, depth);
        PrefixOf(sps, depth);
        PrefixOf(hashes, depth);
      }
      if depth > 0 {
        StackPop(stack, window);
        TopOf(sps, depth);
      }
    }

    /** Records the new frame and its hash. */
    method Record(pc: nat, sp: nat, ghost stack: seq<Entry>)
      requires pcs != sps && Represents(stack) && depth < pcs.Length
      requires rolling.Valid() && rolling.size == window
      modifies this`depth, pcs, sps, hashes
      ensures Represents(stack + [Entry(pc, sp)])
    {
      StackLengths(stack, window);
      pcs[depth] := pc;
      sps[depth] := sp;
      Extended(pcs, depth);
      Extended(sps, depth);
      assert pcs[..depth] == Pcs(stack) && sps[..depth] == Sps(stack);
      var hash := NextHash(pc, stack);
      hashes[depth] := hash;
      Extended(hashes, depth);
      assert hashes[..depth] == FrameHashes(Pcs(stack), window);
      StackSnoc(stack, Entry(pc, sp), window);
      depth := depth + 1;
    }

    /** The hash of the frame about to be recorded, from that of the frame below. */
    method NextHash(pc: nat, ghost stack: seq<Entry>) returns (h: U32)
      requires depth == |stack| < pcs.Length == hashes.Length && rolling.Valid() && rolling.size == window
      requires pcs[..depth + 1] == Pcs(stack) + [pc] && hashes[..depth] == FrameHashes(Pcs(stack), window)
      ensures h == Reference(Window(Pcs(stack) + [pc], window))
    {
      var previousHash, previousPc := Previous();
      StackLengths(stack, window);
      PreviousHash(stack, window, hashes[..depth], previousHash);
      PreviousPc(pcs[..depth + 1], Pcs(stack), pc, window, previousPc);
      h := rolling.Updated(previousHash, Low(pc), Low(previousPc), Pcs(stack), pc);
    }

    method Previous() returns (hash: U32, pc: nat)
      requires depth < pcs.Length == hashes.Length
      ensures hash == if depth == 0 then 0 else hashes[..depth][depth - 1]
      ensures pc == if depth >= window then pcs[..depth + 1][depth - window] else 0
    {
      hash := if depth == 0 then 0 else hashes[depth - 1];
      pc := if depth >= window then pcs[depth - window] else 0;
    }

    /** The hash of the current stack: that of its last `window` frames. */
    method Hash() returns (h: U32)
      requires Valid()
      ensures var frames := Window(Pcs(Take(Unbounded(entries), pcs.Length)), window);
              h == Reference(frames) == Polynomial(frames) % 0x1_0000_0000
    {
      ghost var stack := Take(Unbounded(entries), pcs.Length);
      HashIsPolynomial(Pcs(stack), window);
      if depth > 0 {
        StackPop(stack, window);
        TopOf(hashes, depth);
      }
      h := if depth == 0 then 0 else hashes[depth - 1];
    }
  }

  /** The hash of the frame below is that of the stack. */
  lemma PreviousHash(stack: seq<Entry>, window: nat, hashes: seq<U32>, hash: U32)
    requires |hashes| == |stack| && hashes == FrameHashes(Pcs(stack), window)
    requires hash == if stack == [] then 0 else hashes[|stack| - 1]
    ensures hash == Reference(Window(Pcs(stack), window))
  {
    StackLengths(stack, window);
    if stack != [] {
      FrameHashAt(Pcs(stack), window, |stack| - 1);
      assert Pcs(stack)[..|stack|] == Pcs(stack);
    }
  }

  lemma PreviousPc(buffer: seq<nat>, pcs: seq<nat>, pc: nat, window: nat, previous: nat)
    requires buffer == pcs + [pc]
    requires previous == if |pcs| >= window then buffer[|pcs| - window] else 0
    ensures Low(previous) == Leaving(pcs, window, pc)
  {
  }

  lemma TopOf<T>(a: array<T>, n: nat)
    requires 0 < n <= a.Length
    ensures a[n - 1] == a[..n][n - 1]
  {
  }

  lemma Extended<T>(a: array<T>, n: nat)
    requires n < a.Length
    ensures a[..n + 1] == a[..n] + [a[n]]
  {
  }

  lemma PrefixOf<T>(a: array<T>, n: nat)
    requires n < a.Length
    ensures a[..n + 1][..n] == a[..n]
  {
  }

  /** How the kept stack changes on an entry. */
  lemma KeptAfter(entries: seq<Entry>, e: Entry, n: nat)
    ensures var below := Unwind(Take(Unbounded(entries), n), e.sp);
            Take(Unbounded(entries + [e]), n) == if |below| < n then below + [e] else below
  {
    UnboundedDescends(entries);
    UnwindOfTake(Unbounded(entries), n, e.sp);
    UnboundedSnoc(entries, e);
  }

  lemma UnboundedSnoc(entries: seq<Entry>, e: Entry)
    ensures Unbounded(entries + [e]) == Unwind(Unbounded(entries), e.sp) + [e]
  {
    assert (entries + [e])[..|entries|] == entries;
  }

  // ---------------------------------------------------- which entries survive

  /** No later entry reached as far up the machine stack. */
  predicate Survives(entries: seq<Entry>, i: nat)
    requires i < |entries|
  {
    forall j :: i < j < |entries| ==> entries[j].sp < entries[i].sp
  }

  /** The surviving entries, each exactly once and in order: the one at index i comes after
      the survivors before it. */
  lemma {:induction false} SurvivorsExact(entries: seq<Entry>, n: nat, i: nat)
    requires i < n <= |entries|
    ensures var before := |Survivors(entries, i)|;
            && Survivors(entries, i) <= Survivors(entries, n)
            && (Survives(entries, i) ==> before < |Survivors(entries, n)| && Survivors(entries, n)[before] == entries[i])
            && |Survivors(entries, n)| <= n
    decreases n
  {
    if i < n - 1 {
      SurvivorsExact(entries, n - 1, i);
    } else if i > 0 {
      SurvivorsExact(entries, i, i - 1);
    }
  }

  /** The surviving ones among the first `n` entries, in order. */
  function Survivors(entries: seq<Entry>, n: nat): seq<Entry>
    requires n <= |entries|
  {
    if n == 0 then []
    else if Survives(entries, n - 1) then Survivors(entries, n - 1) + [entries[n - 1]]
    else Survivors(entries, n - 1)
  }

  function Above(stack: seq<Entry>, sp: nat): seq<Entry> {
    if stack == [] then []
    else
      var rest := Above(stack[..|stack| - 1], sp);
      if stack[|stack| - 1].sp > sp then rest + [stack[|stack| - 1]] else rest
  }

  lemma {:induction false} AboveKeepsAll(stack: seq<Entry>, sp: nat)
    requires forall i :: 0 <= i < |stack| ==> stack[i].sp > sp
    ensures Above(stack, sp) == stack
  {
    if stack != [] {
      AboveKeepsAll(stack[..|stack| - 1], sp);
    }
  }

  lemma {:induction false} UnwindIsAbove(stack: seq<Entry>, sp: nat)
    requires Descending(stack)
    ensures Unwind(stack, sp) == Above(stack, sp)
  {
    if stack != [] {
      if stack[|stack| - 1].sp <= sp {
        UnwindIsAbove(stack[..|stack| - 1], sp);
      } else {
        AboveKeepsAll(stack, sp);
      }
    }
  }

  lemma {:induction false} SurvivorsSnoc(entries: seq<Entry>, e: Entry, n: nat)
    requires n <= |entries|
    ensures Survivors(entries + [e], n) == Above(Survivors(entries, n), e.sp)
  {
    if n > 0 {
      SurvivorsSnoc(entries, e, n - 1);
      assert Survives(entries + [e], n - 1) <==> Survives(entries, n - 1) && e.sp < entries[n - 1].sp by {
        assert (entries + [e])[|entries|] == e;
        assert forall j :: n - 1 < j < |entries| ==> (entries + [e])[j] == entries[j];
      }
      if Survives(entries, n - 1) {
        var s := Survivors(entries, n);
        assert s[..|s| - 1] == Survivors(entries, n - 1);
      }
    }
  }

  /** The unbounded stack consists of exactly the entries after which every entry
      had a strictly smaller stack pointer. */
  lemma {:induction false} UnboundedIsSurvivors(entries: seq<Entry>)
    ensures Unbounded(entries) == Survivors(entries, |entries|)
  {
    if entries != [] {
      var init, e := entries[..|entries| - 1], entries[|entries| - 1];
      assert entries == init + [e];
      UnboundedIsSurvivors(init);
      UnboundedDescends(init);
      UnwindIsAbove(Unbounded(init), e.sp);
      SurvivorsSnoc(init, e, |init|);
      assert Survives(entries, |init|);
    }
  }
}
