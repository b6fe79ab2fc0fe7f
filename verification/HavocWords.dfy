/** Machine words in the buffer: byte order, wrap-around arithmetic, exclusive or. */
module HavocWords {
  import opened Bits
  import opened Bytes

  const WORD16: nat := 0x1_0000
  const WORD32: nat := 0x1_0000_0000

  /** EXTRACT16 */
  function Little16(b: seq<Byte>): (v: nat)
    requires |b| == 2
    ensures v < WORD16
  {
    (b[1] as nat) * 256 + b[0]
  }

  /** EXTRACT32 */
  function Little32(b: seq<Byte>): (v: nat)
    requires |b| == 4
    ensures v < WORD32
  {
    (((b[3] as nat) * 256 + b[2]) * 256 + b[1]) * 256 + b[0]
  }

  /** INSERT16 */
  function Bytes16(v: nat): (r: seq<Byte>)
    ensures |r| == 2
  {
    [v % 256, v / 256 % 256]
  }

  /** INSERT32 */
  function Bytes32(v: nat): (r: seq<Byte>)
    ensures |r| == 4
  {
    [v % 256, v / 256 % 256, v / 256 / 256 % 256, v / 256 / 256 / 256 % 256]
  }

  function Swap16(v: nat): (r: nat)
    requires v < WORD16
    ensures r < WORD16
  {
    v % 256 * 256 + v / 256
  }

  function Swap32(v: nat): (r: nat)
    requires v < WORD32
    ensures r < WORD32
  {
    var b := Bytes32(v);
    Little32([b[3], b[2], b[1], b[0]])
  }

  /** What the conversion to an unsigned word makes of a signed or too large number. */
  function Wrap(v: int, modulus: nat): (r: nat)
    requires 0 < modulus
    ensures r < modulus
  {
    v % modulus
  }

  /** The word at `at`, least significant byte first. */
  function Word16(s: seq<Byte>, at: nat): (v: nat)
    requires at + 2 <= |s|
    ensures v < WORD16
  {
    Little16([s[at], s[at + 1]])
  }

  /** The word at `at`, most significant byte first. */
  function Big16(s: seq<Byte>, at: nat): (v: nat)
    requires at + 2 <= |s|
    ensures v < WORD16
  {
    Little16([s[at + 1], s[at]])
  }

  function Word32(s: seq<Byte>, at: nat): (v: nat)
    requires at + 4 <= |s|
    ensures v < WORD32
  {
    Little32([s[at], s[at + 1], s[at + 2], s[at + 3]])
  }

  function Big32(s: seq<Byte>, at: nat): (v: nat)
    requires at + 4 <= |s|
    ensures v < WORD32
  {
    Little32([s[at + 3], s[at + 2], s[at + 1], s[at]])
  }

  /** Storing a word and reading it back, in both byte orders. */
  lemma ReadBack16(v: nat)
    requires v < WORD16
    ensures Word16(Bytes16(v), 0) == v && Big16(Bytes16(Swap16(v)), 0) == v
  {
    var lo, hi := v % 256, v / 256;
    assert Swap16(v) == lo * 256 + hi;
    assert (lo * 256 + hi) % 256 == hi && (lo * 256 + hi) / 256 == lo;
  }

  lemma Split32(b0: Byte, b1: Byte, b2: Byte, b3: Byte)
    ensures Bytes32(Little32([b0, b1, b2, b3])) == [b0, b1, b2, b3]
  {
    var v3 := b3;
    var v2 := v3 * 256 + b2;
    var v1 := v2 * 256 + b1;
    var v0 := v1 * 256 + b0;
    assert v0 / 256 == v1 && v0 % 256 == b0;
    assert v1 / 256 == v2 && v1 % 256 == b1;
    assert v2 / 256 == v3 && v2 % 256 == b2;
  }

  lemma Join32(v: nat)
    requires v < WORD32
    ensures var b := Bytes32(v); Little32([b[0], b[1], b[2], b[3]]) == v
  {
    var v1 := v / 256;
    var v2 := v1 / 256;
    var v3 := v2 / 256;
    assert v3 < 256;
    assert v == v1 * 256 + v % 256 && v1 == v2 * 256 + v1 % 256 && v2 == v3 * 256 + v2 % 256;
  }

  lemma ReadBack32(v: nat)
    requires v < WORD32
    ensures Word32(Bytes32(v), 0) == v && Big32(Bytes32(Swap32(v)), 0) == v
  {
    hide Bytes32, Little32;
    var b := Bytes32(v);
    Join32(v);
    Split32(b[3], b[2], b[1], b[0]);
  }

  /** Swapping turns the one byte order into the other, and is its own inverse. */
  lemma SwapTurns(b0: Byte, b1: Byte, b2: Byte, b3: Byte)
    ensures Swap16(Little16([b0, b1])) == Little16([b1, b0])
    ensures Swap32(Little32([b0, b1, b2, b3])) == Little32([b3, b2, b1, b0])
    ensures Swap32(Swap32(Little32([b0, b1, b2, b3]))) == Little32([b0, b1, b2, b3])
  {
    hide Bytes32, Little32;
    Split32(b0, b1, b2, b3);
    Split32(b3, b2, b1, b0);
    Turns16(b0, b1);
  }

  lemma Turns16(b0: Byte, b1: Byte)
    ensures Swap16(Little16([b0, b1])) == Little16([b1, b0])
  {
    assert (b1 * 256 + b0) % 256 == b0 && (b1 * 256 + b0) / 256 == b1;
  }

  // ---------------------------------------------------------------- arithmetic on words

  /** The four bytes that replace a dword when `delta` is added as MUT_ARITH32 and its variants do it. */
  function Added32(b: seq<Byte>, delta: int): (r: seq<Byte>)
    requires |b| == 4
    ensures |r| == 4
  {
    Bytes32(Wrap(Word32(b, 0) + delta, WORD32))
  }

  /** The same with the byte order swapped before and after. */
  function Added32Swapped(b: seq<Byte>, delta: int): (r: seq<Byte>)
    requires |b| == 4
    ensures |r| == 4
  {
    Bytes32(Swap32(Wrap(Swap32(Word32(b, 0)) + delta, WORD32)))
  }

  function Added16(b: seq<Byte>, delta: int): (r: seq<Byte>)
    requires |b| == 2
    ensures |r| == 2
  {
    Bytes16(Wrap(Word16(b, 0) + delta, WORD16))
  }

  function Added16Swapped(b: seq<Byte>, delta: int): (r: seq<Byte>)
    requires |b| == 2
    ensures |r| == 2
  {
    Bytes16(Swap16(Wrap(Swap16(Word16(b, 0)) + delta, WORD16)))
  }

  /** MUT_ARITH32BE as it is written: both swaps around the sum. */
  function Added32BE(b: seq<Byte>, item: nat): (r: seq<Byte>)
    requires |b| == 4
    ensures |r| == 4
  {
    Bytes32(Swap32(Swap32(Wrap(Word32(b, 0) + item, WORD32))))
  }

  /** The plain variants add to the little-endian word, the swapped ones to the big-endian word. */
  lemma ArithLaws16(b: seq<Byte>, delta: int)
    requires |b| == 2
    ensures Word16(Added16(b, delta), 0) == Wrap(Word16(b, 0) + delta, WORD16)
    ensures Big16(Added16Swapped(b, delta), 0) == Wrap(Big16(b, 0) + delta, WORD16)
  {
    hide Wrap, Bytes16, Swap16;
    ReadBack16(Wrap(Word16(b, 0) + delta, WORD16));
    Turns16(b[0], b[1]);
    ReadBack16(Wrap(Swap16(Word16(b, 0)) + delta, WORD16));
  }

  lemma ArithLaws32(b: seq<Byte>, delta: int)
    requires |b| == 4
    ensures Word32(Added32(b, delta), 0) == Wrap(Word32(b, 0) + delta, WORD32)
    ensures Big32(Added32Swapped(b, delta), 0) == Wrap(Big32(b, 0) + delta, WORD32)
  {
    hide Wrap, Bytes32, Swap32, Little32;
    ReadBack32(Wrap(Word32(b, 0) + delta, WORD32));
    SwapTurns(b[0], b[1], b[2], b[3]);
    ReadBack32(Wrap(Swap32(Word32(b, 0)) + delta, WORD32));
  }

  /** The swaps of MUT_ARITH32BE cancel: it is MUT_ARITH32. */
  lemma Arith32BEIsLittle(b: seq<Byte>, item: nat)
    requires |b| == 4
    ensures Added32BE(b, item) == Added32(b, item)
  {
    hide Bytes32, Swap32, Little32, Wrap;
    var v := Wrap(Word32(b, 0) + item, WORD32);
    var c := Bytes32(v);
    Join32(v);
    SwapTurns(c[0], c[1], c[2], c[3]);
  }

  lemma WrapSum(v: nat, item: nat)
    requires v < WORD32 && item < WORD32
    ensures Wrap(v + item, WORD32) == if v + item < WORD32 then v + item else v + item - WORD32
  {
  }

  /**
   What MUT_ARITH32BE promises, adding to the big-endian dword, comes true in one case only: one is
   added to a dword of four bytes 0xff.
   */
  lemma BigEndianPromise(b: seq<Byte>, item: nat)
    requires |b| == 4 && 1 <= item <= 35
    ensures Big32(Added32BE(b, item), 0) == Wrap(Big32(b, 0) + item, WORD32)
      <==> item == 1 && b == [255, 255, 255, 255]
  {
    hide Bytes32, Swap32, Wrap;
    Arith32BEIsLittle(b, item);
    ArithLaws32(b, item);
    var c := Added32(b, item);
    WrapSum(Word32(b, 0), item);
    WrapSum(Big32(b, 0), item);
    Carries(b, c, item);
  }

  lemma Carries(b: seq<Byte>, c: seq<Byte>, item: nat)
    requires |b| == 4 && |c| == 4 && 1 <= item <= 35
    requires Word32(c, 0) == Word32(b, 0) + item || Word32(c, 0) == Word32(b, 0) + item - WORD32
    ensures (if Big32(b, 0) + item < WORD32 then Big32(c, 0) == Big32(b, 0) + item
             else Big32(c, 0) == Big32(b, 0) + item - WORD32)
      <==> item == 1 && b == [255, 255, 255, 255]
  {
    hide Little32, Big32, Word32;
    HighLow(b);
    HighLow(c);
    AllOnes24(b[1], b[2], b[3]);
    AllOnes24(b[3], b[2], b[1]);
    NoOnes24(c[1], c[2], c[3]);
    NoOnes24(c[3], c[2], c[1]);
    BothCarries(b[0], Little32([b[1], b[2], b[3], 0]), Little32([b[3], b[2], b[1], 0]),
                c[0], Little32([c[1], c[2], c[3], 0]), Little32([c[3], c[2], c[1], 0]), item);
  }

  lemma HighLow(b: seq<Byte>)
    requires |b| == 4
    ensures var b0: nat := b[0];
      && Word32(b, 0) == b0 + 256 * Little32([b[1], b[2], b[3], 0])
      && Big32(b, 0) == b0 * 0x100_0000 + Little32([b[3], b[2], b[1], 0])
  {
  }

  /** The same with the four bytes as one byte and the 24 bits of the others, in either order. */
  lemma BothCarries(b: nat, high: nat, low: nat, c: nat, high': nat, low': nat, item: nat)
    requires b < 256 && c < 256 && 1 <= item <= 35
    requires high < 0x100_0000 && high' < 0x100_0000 && low < 0x100_0000 && low' < 0x100_0000
    requires (high == 0xff_ffff <==> low == 0xff_ffff) && (high' == 0 <==> low' == 0)
    requires c + 256 * high' == b + 256 * high + item || c + 256 * high' == b + 256 * high + item - WORD32
    ensures var sum, now := b * 0x100_0000 + low + item, c * 0x100_0000 + low';
      now == (if sum < WORD32 then sum else sum - WORD32) <==> item == 1 && b == 255 && low == 0xff_ffff
  {
    LowByte(b, high, c, high', item);
    TopByte(b, low, c, low', item);
  }

  lemma AllOnes24(b0: Byte, b1: Byte, b2: Byte)
    ensures Little32([b0, b1, b2, 0]) < 0x100_0000
    ensures Little32([b0, b1, b2, 0]) == 0xff_ffff <==> b0 == 255 && b1 == 255 && b2 == 255
  {
  }

  lemma NoOnes24(b0: Byte, b1: Byte, b2: Byte)
    ensures Little32([b0, b1, b2, 0]) < 0x100_0000
    ensures Little32([b0, b1, b2, 0]) == 0 <==> b0 == 0 && b1 == 0 && b2 == 0
  {
  }

  /** The high byte changes by a carry out of the low 24 bits only. */
  lemma TopByte(b: nat, low: nat, c: nat, low': nat, item: nat)
    requires b < 256 && c < 256 && 1 <= item <= 35 && low < 0x100_0000 && low' < 0x100_0000
    ensures var sum, now := b * 0x100_0000 + low + item, c * 0x100_0000 + low';
      now == sum || now == sum - WORD32 ==>
      c == b || ((c == b + 1 || (b == 255 && c == 0)) && low' == low + item - 0x100_0000)
  {
  }

  /** The low byte changes, and whether the rest does is decided by its carry. */
  lemma LowByte(b: nat, high: nat, c: nat, high': nat, item: nat)
    requires b < 256 && c < 256 && 1 <= item <= 35 && high < 0x100_0000 && high' < 0x100_0000
    requires c + 256 * high' == b + 256 * high + item || c + 256 * high' == b + 256 * high + item - WORD32
    ensures b + item < 256 ==> c == b + item && high' == high
    ensures b + item >= 256 ==> c == b + item - 256 && (high' == high + 1 || high' == high + 1 - 0x100_0000)
  {
  }

  // ---------------------------------------------------------------- exclusive or

  function Xor(a: nat, b: nat): (c: nat)
    decreases a + b
  {
    if a == 0 then b else if b == 0 then a
    else (if a % 2 == b % 2 then 0 else 1) + 2 * Xor(a / 2, b / 2)
  }

  lemma {:induction false} XorBound(a: nat, b: nat, k: nat)
    requires a < Pow2(k) && b < Pow2(k)
    ensures Xor(a, b) < Pow2(k)
    decreases k
  {
    if a > 0 && b > 0 {
      XorBound(a / 2, b / 2, k - 1);
    }
  }

  /** Applying the same mask twice restores the number, so only the mask 0 changes nothing. */
  lemma {:induction false} XorUndoes(a: nat, b: nat)
    ensures Xor(Xor(a, b), b) == a
    ensures Xor(a, b) == a <==> b == 0
    decreases a + b
  {
    if a > 0 && b > 0 {
      XorUndoes(a / 2, b / 2);
      var h := Xor(a / 2, b / 2);
      var bit := if a % 2 == b % 2 then 0 else 1;
      assert Xor(a, b) == bit + 2 * h;
      assert (bit + 2 * h) / 2 == h && (bit + 2 * h) % 2 == bit;
      XorHalf(bit + 2 * h, b);
    } else if a == 0 {
      XorSame(b);
    }
  }

  lemma {:induction false} XorSame(a: nat)
    ensures Xor(a, a) == 0
    decreases a
  {
    if a > 0 {
      XorSame(a / 2);
    }
  }

  lemma XorHalf(a: nat, b: nat)
    ensures Xor(a, b) / 2 == Xor(a / 2, b / 2)
    ensures Xor(a, b) % 2 == if a % 2 == b % 2 then 0 else 1
  {
  }

  /** Bit `k` of `a`. */
  function BitOf(a: nat, k: nat): nat {
    if k == 0 then a % 2 else BitOf(a / 2, k - 1)
  }

  /** The mask 2^k turns bit `k` over. */
  lemma {:induction false} XorBit(a: nat, k: nat)
    ensures Xor(a, Pow2(k)) == if BitOf(a, k) == 0 then a + Pow2(k) else a - Pow2(k)
    decreases k
  {
    if k > 0 {
      XorBit(a / 2, k - 1);
      XorHalf(a, Pow2(k));
      assert Pow2(k) / 2 == Pow2(k - 1) && Pow2(k) % 2 == 0;
    } else if a > 0 {
      XorHalf(a, 1);
      assert Xor(a / 2, 0) == a / 2;
    }
  }

  /** The mask of ones turns all bits over. */
  lemma {:induction false} XorOnes(a: nat, k: nat)
    requires a < Pow2(k)
    ensures Xor(a, Pow2(k) - 1) == Pow2(k) - 1 - a
    decreases k
  {
    if k > 0 {
      XorOnes(a / 2, k - 1);
      var ones := Pow2(k) - 1;
      XorHalf(a, ones);
      assert ones / 2 == Pow2(k - 1) - 1 && ones % 2 == 1;
    }
  }

  /** `a ^ b` on bytes. */
  function XorByte(a: Byte, b: Byte): (c: Byte) {
    XorBound(a, b, 8);
    assert Pow2(8) == 256 by { assert Pow2(4) == 16; }
    Xor(a, b)
  }
}
