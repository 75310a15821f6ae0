/** Bytes and little-endian words. */
module Bytes {
  const W32: nat := 0x1_0000_0000
  const W64: nat := 0x1_0000_0000_0000_0000

  type U8 = x: int | 0 <= x < 0x100
  type U32 = x: int | 0 <= x < 0x1_0000_0000
  type U64 = x: int | 0 <= x < 0x1_0000_0000_0000_0000

  function Power256(n: nat): nat { if n == 0 then 1 else 0x100 * Power256(n - 1) }

  /** The word a memcpy from `bs` reads on a little-endian machine. */
  function LittleEndian(bs: seq<U8>): nat {
    if bs == [] then 0 else (bs[0] as int) + 0x100 * LittleEndian(bs[1..])
  }

  /** The low byte of word >> (8 * pos). */
  function ByteAt(word: nat, pos: nat): U8 {
    if pos == 0 then word % 0x100 else ByteAt(word / 0x100, pos - 1)
  }

  /** The n bytes a memcpy writes for `word`. */
  function ToBytes(word: nat, n: nat): (bs: seq<U8>)
    ensures |bs| == n
  {
    if n == 0 then [] else [word % 0x100] + ToBytes(word / 0x100, n - 1)
  }

  lemma {:induction false} ByteOfWord(bs: seq<U8>, pos: nat)
    requires pos < |bs|
    ensures ByteAt(LittleEndian(bs), pos) == bs[pos]
  {
    var rest := LittleEndian(bs[1..]);
    assert LittleEndian(bs) / 0x100 == rest && LittleEndian(bs) % 0x100 == bs[0];
    if pos > 0 {
      ByteOfWord(bs[1..], pos - 1);
    }
  }

  /** Later bytes are worth more. */
  lemma {:induction false} LittleEndianConcat(a: seq<U8>, b: seq<U8>)
    ensures LittleEndian(a + b) == LittleEndian(a) + Power256(|a|) * LittleEndian(b)
  {
    if a == [] {
      assert a + b == b;
    } else {
      LittleEndianConcat(a[1..], b);
      assert (a + b)[1..] == a[1..] + b;
      assert Power256(|a|) * LittleEndian(b) == 0x100 * (Power256(|a| - 1) * LittleEndian(b));
    }
  }

  lemma {:induction false} ZeroWord(bs: seq<U8>)
    ensures LittleEndian(bs) == 0 <==> forall i :: 0 <= i < |bs| ==> bs[i] == 0
  {
    if bs != [] {
      ZeroWord(bs[1..]);
      assert forall i :: 1 <= i < |bs| ==> bs[i] == bs[1..][i - 1];
    }
  }

  lemma {:induction false} WordRoundTrip(word: nat, n: nat)
    requires word < Power256(n)
    ensures LittleEndian(ToBytes(word, n)) == word
  {
    if n > 0 {
      WordRoundTrip(word / 0x100, n - 1);
      assert ToBytes(word, n)[1..] == ToBytes(word / 0x100, n - 1);
    }
  }

  lemma {:induction false} WordBound(bs: seq<U8>)
    ensures LittleEndian(bs) < Power256(|bs|)
  {
    if bs != [] {
      WordBound(bs[1..]);
    }
  }

  lemma Power256Of8()
    ensures Power256(8) == 0x1_0000_0000_0000_0000
  {
    assert Power256(4) == 0x1_0000_0000;
    assert Power256(8) == 0x100 * (0x100 * (0x100 * (0x100 * Power256(4))));
  }

  // ------------------------------------------------------------- wrap-around

  lemma Shift(a: int, k: int)
    ensures (a + k * W32) % W32 == a % W32
  {
  }

  lemma Shift64(a: int, k: int)
    ensures (a + k * W64) % W64 == a % W64
  {
  }

  lemma Mod64Mod32(x: int)
    ensures x % W64 % W32 == x % W32
  {
    var q := x / W64;
    assert x == x % W64 + (q * W32) * W32;
    Shift(x % W64, q * W32);
  }

  lemma MultipleSize(d: int, a: int)
    requires a > 0
    ensures d >= 1 ==> d * a >= a
    ensures d <= -1 ==> d * a <= -a
  {
    if d > 0 {
      assert (d - 1) * a >= 0;
    } else if d < 0 {
      assert (-d - 1) * a >= 0;
    }
  }
}
