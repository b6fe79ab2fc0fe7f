/** What single kinds of edits do to the buffer, for every buffer and tape. */
module HavocLaws {
  import opened Arithmetic
  import opened Bytes
  import opened Wrappers
  import opened Bits
  import opened Decimal
  import opened Rng
  import opened HavocEdits
  import opened HavocWords
  import opened HavocShuffle
  import opened HavocNumber
  import opened HavocPlan
  import opened HavocSteps

  /** The decision is to go ahead, and `t` is what the buffer holds afterwards. */
  ghost predicate Leads(env: Env, s: seq<Byte>, d: Decision, t: seq<Byte>) {
    && d.Some? && d.value.0.Go? && 1 <= |s| <= env.maxLen && OpOk(env, |s|, d.value.0.op)
    && t == After(env, s, d.value.0.op)
  }

  // ---------------------------------------------------------------- single bytes

  /** The kinds that promise to change one byte. */
  predicate ChangesOne(kind: Kind) {
    (kind.FlipBit? || kind.Rand8? || kind.ByteAdd? || kind.ByteSub? || kind.Flip8? || kind.Arith8?
      || kind.Arith8Sub?)
  }

  lemma StoredOne(env: Env, s: seq<Byte>, off: nat, b: Byte)
    requires off < |s| <= env.maxLen
    ensures After(env, s, Store(off, [b])) == s[off := b]
  {
  }

  lemma XorChanges(b: Byte, mask: Byte)
    requires mask != 0
    ensures XorByte(b, mask) != b && XorByte(XorByte(b, mask), mask) == b
  {
    XorUndoes(b, mask);
  }

  lemma AddChanges(b: Byte, delta: int)
    requires -256 < delta < 256 && delta != 0
    ensures AddByte(b, delta) != b && AddByte(b, delta) == Wrap(b + delta, 256)
    ensures delta > 0 ==> Moved(b, AddByte(b, delta), delta)
    ensures delta < 0 ==> Moved(AddByte(b, delta), b, -delta)
  {
  }

  predicate BitFlipped(was: Byte, now: Byte, bit: nat) {
    now == if BitOf(was, bit) == 0 then was + Pow2(bit) else was - Pow2(bit)
  }

  /** `now` is `item` above `was`, wrapping around. */
  predicate Moved(was: Byte, now: Byte, item: nat) {
    now == Wrap(was + item, 256)
  }

  /** What a byte may become: a bit flipped, one to 35 added or taken away modulo 256, all bits flipped. */
  ghost predicate ByteChange(kind: Kind, was: Byte, now: Byte) {
    match kind
    case FlipBit => exists bit: nat :: bit < 8 && BitFlipped(was, now, bit)
    case Interesting8 => exists i: nat :: i < |INTERESTING_8| && now == Wrap(INTERESTING_8[i], 256)
    case Rand8 => now != was
    case Flip8 => now == 255 - was
    case ByteAdd => now == Wrap(was + 1, 256)
    case ByteSub => now == Wrap(was - 1, 256)
    case Arith8 => exists item: nat :: 1 <= item <= ARITH_MAX && Moved(was, now, item)
    case Arith8Sub => exists item: nat :: 1 <= item <= ARITH_MAX && Moved(now, was, item)
    case _ => false
  }

  /** Each of them changes one byte, to another value: none is a no-op. */
  lemma OneByteChanges(env: Env, kind: Kind, s: seq<Byte>, tape: Tape, t: seq<Byte>) returns (off: nat)
    requires 1 <= |s| && ChangesOne(kind) && Leads(env, s, Plan(env, kind, s, tape), t)
    ensures off < |s| && |t| == |s| && t[off] != s[off] && forall k | 0 <= k < |s| && k != off :: t[k] == s[k]
    ensures ByteChange(kind, s[off], t[off])
  {
    hide After, XorByte, AddByte, Below, ByteChange;
    var op := Plan(env, kind, s, tape).value.0.op;
    off := op.at;
    StoredOne(env, s, off, op.data[0]);
    ByteDiffers(env, kind, s, tape);
  }

  lemma BitChanges(b: Byte, bit: nat)
    requires bit < 8
    ensures Pow2(bit) < 256 && XorByte(b, Pow2(bit)) != b && BitFlipped(b, XorByte(b, Pow2(bit)), bit)
  {
    Pow2Byte(bit);
    XorBit(b, bit);
  }

  lemma OnesChange(b: Byte)
    ensures XorByte(b, 255) == 255 - b
  {
    assert Pow2(8) == 256 by { assert Pow2(4) == 16; }
    XorOnes(b, 8);
  }

  lemma ByteDiffers(env: Env, kind: Kind, s: seq<Byte>, tape: Tape)
    requires 1 <= |s| && ChangesOne(kind) && Plan(env, kind, s, tape).Some?
    ensures var choice := Plan(env, kind, s, tape).value.0;
      choice.Go? && choice.op.Store? && choice.op.at < |s| && |choice.op.data| == 1
        && choice.op.data[0] != s[choice.op.at]
      && ByteChange(kind, s[choice.op.at], choice.op.data[0])
  {
    hide XorByte, AddByte, BitFlipped, Moved, Below;
    var op := Plan(env, kind, s, tape).value.0.op;
    var b := s[op.at];
    match kind
    case FlipBit =>
      BitChanges(b, Below(tape, 8).value.0);
    case Rand8 =>
      var (_, t1) := Below(tape, |s|).value;
      XorChanges(b, Below(t1, 255).value.0 + 1);
    case Flip8 =>
      OnesChange(b);
      XorChanges(b, 255);
    case ByteAdd =>
      AddChanges(b, 1);
    case ByteSub =>
      AddChanges(b, -1);
    case Arith8 =>
      AddChanges(b, 1 + Below(tape, ARITH_MAX).value.0);
    case Arith8Sub =>
      AddChanges(b, -(1 + Below(tape, ARITH_MAX).value.0));
  }

  // ---------------------------------------------------------------- words

  lemma Stored16(env: Env, s: seq<Byte>, at: nat, data: seq<Byte>)
    requires |data| == 2 && at + 2 <= |s| <= env.maxLen
    ensures var t := After(env, s, Store(at, data));
      && |t| == |s| && Word16(t, at) == Word16(data, 0) && Big16(t, at) == Big16(data, 0)
      && forall k | 0 <= k < |s| && !(at <= k < at + 2) :: t[k] == s[k]
  {
  }

  lemma Stored32(env: Env, s: seq<Byte>, at: nat, data: seq<Byte>)
    requires |data| == 4 && at + 4 <= |s| <= env.maxLen
    ensures var t := After(env, s, Store(at, data));
      && |t| == |s| && Word32(t, at) == Word32(data, 0) && Big32(t, at) == Big32(data, 0)
      && forall k | 0 <= k < |s| && !(at <= k < at + 4) :: t[k] == s[k]
  {
    hide Little32;
  }

  /** The word at `at` has moved by `item` modulo 2^16: up or down, and in the byte order that the kind says. */
  ghost predicate Added16By(kind: Kind, s: seq<Byte>, t: seq<Byte>, at: nat, item: nat)
    requires |t| == |s| && at + 2 <= |s|
  {
    && 1 <= item <= ARITH_MAX
    && match kind
       case Arith16 => Word16(t, at) == Wrap(Word16(s, at) + item, WORD16)
       case Arith16Sub => Word16(t, at) == Wrap(Word16(s, at) - item, WORD16)
       case Arith16BE => Big16(t, at) == Wrap(Big16(s, at) + item, WORD16)
       case Arith16BESub => Big16(t, at) == Wrap(Big16(s, at) - item, WORD16)
       case _ => false
  }

  /** The same for dwords; MUT_ARITH32BE adds to the little-endian one. */
  ghost predicate Added32By(kind: Kind, s: seq<Byte>, t: seq<Byte>, at: nat, item: nat)
    requires |t| == |s| && at + 4 <= |s|
  {
    && 1 <= item <= ARITH_MAX
    && match kind
       case Arith32 => Word32(t, at) == Wrap(Word32(s, at) + item, WORD32)
       case Arith32Sub => Word32(t, at) == Wrap(Word32(s, at) - item, WORD32)
       case Arith32BE => Word32(t, at) == Wrap(Word32(s, at) + item, WORD32)
       case Arith32BESub => Big32(t, at) == Wrap(Big32(s, at) - item, WORD32)
       case _ => false
  }

  /** 16-bit arithmetic: the word at one place, in the byte order of the kind, moves by 1 to 35, wrapping around. */
  lemma Arith16Adds(env: Env, kind: Kind, s: seq<Byte>, tape: Tape, t: seq<Byte>) returns (at: nat, item: nat)
    requires (kind.Arith16? || kind.Arith16Sub? || kind.Arith16BE? || kind.Arith16BESub?)
    requires 2 <= |s| && Leads(env, s, Plan(env, kind, s, tape), t)
    ensures at + 2 <= |s| == |t| && Added16By(kind, s, t, at, item)
    ensures forall k | 0 <= k < |s| && !(at <= k < at + 2) :: t[k] == s[k]
  {
    hide Plan, Added16, Added16Swapped, Wrap, After, Word16, Big16;
    var data;
    at, item, data := Arith16Op(env, kind, s, tape);
    LeadsStore(env, s, Plan(env, kind, s, tape), t, at, data);
    Stored16(env, s, at, data);
    ArithLaws16(s[at..at + 2], Delta(kind, item));
    WordOf16(s, at);
  }

  lemma WordOf16(s: seq<Byte>, at: nat)
    requires at + 2 <= |s|
    ensures Word16(s[at..at + 2], 0) == Word16(s, at) && Big16(s[at..at + 2], 0) == Big16(s, at)
  {
  }

  lemma WordOf32(s: seq<Byte>, at: nat)
    requires at + 4 <= |s|
    ensures Word32(s[at..at + 4], 0) == Word32(s, at) && Big32(s[at..at + 4], 0) == Big32(s, at)
  {
    hide Little32;
  }

  lemma LeadsStore(env: Env, s: seq<Byte>, d: Decision, t: seq<Byte>, at: nat, data: seq<Byte>)
    requires Leads(env, s, d, t) && d.value.0.op == Store(at, data)
    ensures at + |data| <= |s| <= env.maxLen && t == After(env, s, Store(at, data))
  {
    hide After;
  }

  lemma Arith16Op(env: Env, kind: Kind, s: seq<Byte>, tape: Tape) returns (at: nat, item: nat, data: seq<Byte>)
    requires (kind.Arith16? || kind.Arith16Sub? || kind.Arith16BE? || kind.Arith16BESub?)
    requires 2 <= |s| && Plan(env, kind, s, tape).Some?
    ensures at + 2 <= |s| && 1 <= item <= ARITH_MAX && |data| == 2
    ensures Plan(env, kind, s, tape).value.0 == Go(Store(at, data))
    ensures data == if IsBig16(kind) then Added16Swapped(s[at..at + 2], Delta(kind, item))
                    else Added16(s[at..at + 2], Delta(kind, item))
  {
    hide Added16, Added16Swapped, Below;
    var (pos, t1) := Below(tape, |s| - 1).value;
    at, item := pos, 1 + Below(t1, ARITH_MAX).value.0;
    data := Plan(env, kind, s, tape).value.0.op.data;
  }

  lemma Arith32Op(env: Env, kind: Kind, s: seq<Byte>, tape: Tape) returns (at: nat, item: nat, data: seq<Byte>)
    requires (kind.Arith32? || kind.Arith32Sub? || kind.Arith32BE? || kind.Arith32BESub?)
    requires 4 <= |s| && Plan(env, kind, s, tape).Some?
    ensures at + 4 <= |s| && 1 <= item <= ARITH_MAX && |data| == 4
    ensures Plan(env, kind, s, tape).value.0 == Go(Store(at, data))
    ensures data == Sum32(kind, s[at..at + 4], item)
  {
    hide Sum32, Below;
    var (pos, t1) := Below(tape, |s| - 3).value;
    at, item := pos, 1 + Below(t1, ARITH_MAX).value.0;
    data := Plan(env, kind, s, tape).value.0.op.data;
  }

  /** 32-bit arithmetic.  MUT_ARITH32BE is with the little-endian kinds: that is what its code does. */
  lemma Arith32Adds(env: Env, kind: Kind, s: seq<Byte>, tape: Tape, t: seq<Byte>) returns (at: nat, item: nat)
    requires (kind.Arith32? || kind.Arith32Sub? || kind.Arith32BE? || kind.Arith32BESub?)
    requires 4 <= |s| && Leads(env, s, Plan(env, kind, s, tape), t)
    ensures at + 4 <= |s| == |t| && Added32By(kind, s, t, at, item)
    ensures kind == Arith32BE ==>
      (Big32(t, at) == Wrap(Big32(s, at) + item, WORD32) <==> item == 1 && s[at..at + 4] == [255, 255, 255, 255])
    ensures forall k | 0 <= k < |s| && !(at <= k < at + 4) :: t[k] == s[k]
  {
    hide Plan, Added32, Added32Swapped, Added32BE, Wrap, After, Word32, Big32;
    var data;
    at, item, data := Arith32Op(env, kind, s, tape);
    LeadsStore(env, s, Plan(env, kind, s, tape), t, at, data);
    Stored32(env, s, at, data);
    ArithLaws32(s[at..at + 4], Delta(kind, item));
    WordOf32(s, at);
    if kind == Arith32BE {
      Arith32BEIsLittle(s[at..at + 4], item);
      BigEndianPromise(s[at..at + 4], item);
    }
  }

  function InterestingWidth(kind: Kind): nat {
    if kind == Interesting16 || kind == Interesting16BE then 2 else 4
  }

  /** Interesting words are stored so that they read back in the byte order of the kind; no other byte changes. */
  lemma InterestingStored(env: Env, kind: Kind, s: seq<Byte>, tape: Tape, t: seq<Byte>) returns (at: nat, item: nat)
    requires (kind.Interesting16? || kind.Interesting16BE? || kind.Interesting32? || kind.Interesting32BE?)
    requires InterestingWidth(kind) <= |s| && Leads(env, s, Plan(env, kind, s, tape), t)
    ensures |t| == |s| && at < |s|
    ensures kind == Interesting16 ==>
      item < |INTERESTING_16| && at + 2 <= |s| && Word16(t, at) == Wrap(INTERESTING_16[item], WORD16)
    ensures kind == Interesting16BE ==>
      item < |INTERESTING_16| && at + 2 <= |s| && Big16(t, at) == Wrap(INTERESTING_16[item], WORD16)
    ensures kind == Interesting32 ==>
      item < |INTERESTING_32| && at + 4 <= |s| && Word32(t, at) == Wrap(INTERESTING_32[item], WORD32)
    ensures kind == Interesting32BE ==>
      item < |INTERESTING_32| && at + 4 <= |s| && Big32(t, at) == Wrap(INTERESTING_32[item], WORD32)
    ensures forall k | 0 <= k < |s| && !(at <= k < at + InterestingWidth(kind)) :: t[k] == s[k]
  {
    hide After, Bytes16, Bytes32, Swap16, Swap32, Wrap, Below, Little32;
    var op := Plan(env, kind, s, tape).value.0.op;
    at := op.at;
    if kind == Interesting16 || kind == Interesting16BE {
      item := Below(tape, |INTERESTING_16|).value.0;
      ReadBack16(Wrap(INTERESTING_16[item], WORD16));
      Stored16(env, s, at, op.data);
    } else {
      item := Below(tape, |INTERESTING_32|).value.0;
      ReadBack32(Wrap(INTERESTING_32[item], WORD32));
      Stored32(env, s, at, op.data);
    }
  }

  // ---------------------------------------------------------------- the shuffle

  /**
   MUT_SHUFFLE: the origins of the bytes in the chosen block form one cycle through the whole block; the
   bytes outside stay, and so does none inside a block of two or more.
   */
  lemma ShuffleCycles(env: Env, s: seq<Byte>, tape: Tape, t: seq<Byte>) returns (at: nat, p: seq<nat>)
    requires 4 <= |s| && Leads(env, s, Plan(env, ShuffleBlock, s, tape), t)
    ensures 1 <= |p| && at + |p| <= |s| == |t| && SingleCycle(p) && IsPermutation(p)
    ensures forall k | 0 <= k < |p| :: t[at + k] == s[at + p[k]]
    ensures forall k | 0 <= k < |s| && !(at <= k < at + |p|) :: t[k] == s[k]
    ensures 2 <= |p| ==> forall k | 0 <= k < |p| :: p[k] != k
  {
    hide SingleCycle, Below, ChooseBlockLen, DrawPartners, Origins, Fits;
    var op := Plan(env, ShuffleBlock, s, tape).value.0.op;
    at := op.at;
    var n := |op.partners| + 1;
    p := Origins(n, op.partners);
    ShuffleIsOneCycle(n, op.partners);
    CycleIsPermutation(p);
    OpIsLegal(env, s, op);
    assert t == Apply(Permute(at, p), s);
    PermuteAt(s, t, at, p);
    if 2 <= n {
      forall k | 0 <= k < n
        ensures p[k] != k
      {
        NoFixedPlace(p, k);
      }
    }
  }

  lemma InRangeOf(p: seq<nat>)
    requires IsPermutation(p)
    ensures forall k | 0 <= k < |p| :: p[k] < |p|
  {
  }

  lemma BlockBetween(s: seq<Byte>, at: nat, b: seq<Byte>)
    requires at + |b| <= |s|
    ensures var t := Glue3(s[..at], b, s[at + |b|..]);
      && |t| == |s|
      && (forall k | 0 <= k < |b| :: t[at + k] == b[k])
      && forall k {:trigger t[k]} | 0 <= k < |s| && !(at <= k < at + |b|) :: t[k] == s[k]
  {
  }

  lemma PermuteAt(s: seq<Byte>, t: seq<Byte>, at: nat, p: seq<nat>)
    requires Fits(Permute(at, p), |s|) && t == Apply(Permute(at, p), s)
    ensures forall k | 0 <= k < |p| :: t[at + k] == s[at + p[k]]
    ensures forall k | 0 <= k < |s| && !(at <= k < at + |p|) :: t[k] == s[k]
  {
    hide IsPermutation, Glue3;
    var block := s[at..at + |p|];
    InRangeOf(p);
    BlockBetween(s, at, Permuted(block, p));
    forall k | 0 <= k < |p|
      ensures t[at + k] == s[at + p[k]]
    {
      assert Permuted(block, p)[k] == block[p[k]];
    }
  }

  // ---------------------------------------------------------------- trading two blocks

  /** MUT_SWITCH: two blocks that do not overlap trade places, and no other byte moves. */
  lemma SwitchTrades(env: Env, s: seq<Byte>, tape: Tape, t: seq<Byte>) returns (left: nat, right: nat, count: nat)
    requires 4 <= |s| && Leads(env, s, Plan(env, SwitchBlocks, s, tape), t)
    ensures 1 <= count && left + count <= right && right + count <= |s| == |t|
    ensures t[left..left + count] == s[right..right + count] && t[right..right + count] == s[left..left + count]
    ensures t[..left] == s[..left] && t[left + count..right] == s[left + count..right]
    ensures t[right + count..] == s[right + count..]
    ensures multiset(t) == multiset(s)
  {
    hide Below, ChooseBlockLen, DrawOther;
    var op := Plan(env, SwitchBlocks, s, tape).value.0.op;
    left, right, count := Min(op.from, op.to), if op.from <= op.to then op.to else op.from, op.count;
    SwapKeeps(s, left, right, count);
    SwapTrades(s, left, right, count);
  }

  lemma FivePieces(a: seq<Byte>, b: seq<Byte>, c: seq<Byte>, d: seq<Byte>, e: seq<Byte>)
    ensures var t := Glue5(a, b, c, d, e);
      var i, j, k, l := |a|, |a| + |b|, |a| + |b| + |c|, |a| + |b| + |c| + |d|;
      t[..i] == a && t[i..j] == b && t[j..k] == c && t[k..l] == d && t[l..] == e
  {
  }

  lemma SwapTrades(s: seq<Byte>, left: nat, right: nat, count: nat)
    requires left + count <= right && right + count <= |s|
    ensures var t := Apply(SwapBlocks(left, right, count), s);
      && |t| == |s|
      && t[left..left + count] == s[right..right + count] && t[right..right + count] == s[left..left + count]
      && t[..left] == s[..left] && t[left + count..right] == s[left + count..right]
      && t[right + count..] == s[right + count..]
  {
    hide Glue5;
    FivePieces(s[..left], s[right..right + count], s[left + count..right], s[left..left + count], s[right + count..]);
  }

  lemma SwapKeeps(s: seq<Byte>, left: nat, right: nat, count: nat)
    requires left + count <= right && right + count <= |s|
    ensures multiset(Apply(SwapBlocks(left, right, count), s)) == multiset(s)
  {
    var a, b, c, d, e := s[..left], s[left..left + count], s[left + count..right], s[right..right
      + count], s[right + count..];
    assert s == a + b + c + d + e;
    assert Apply(SwapBlocks(left, right, count), s) == a + d + c + b + e;
    assert multiset(a + b + c + d + e) == multiset(a) + multiset(b) + multiset(c) + multiset(d) + multiset(e);
  }

  // ---------------------------------------------------------------- numbers

  /** Going ahead without an edit, or asking for another kind. */
  predicate LeavesAlone(d: Decision) {
    d.Some? && (d.value.0.Again? || d.value.0.op.Nothing?)
  }

  /** What each strategy makes of the value of the digits it replaces, in exact arithmetic. */
  ghost predicate StrategyResult(strat: nat, v: int, now: int) {
    match strat
    case 0 => now == v + 1
    case 1 => now == v - 1
    case 2 => now == 2 * v
    case 3 => if v < 0 then -1 <= v - 2 * now <= 0 else 0 <= v - 2 * now <= 1
    case 4 => 0 <= now < if 0 < v < 0x1999_9999 then 10 * v else 256
    case 5 => v <= now < v + 256
    case 6 => v - 256 < now <= v
    case 7 => now == -1 - v
    case _ => false
  }

  /** The whole number is too large for the strategy: a result could leave 64 bits, or come within one of it. */
  predicate NeedsRoom(strat: nat, v: int) {
    match strat
    case 0 => !InInt64(v + 1)
    case 1 => !InInt64(v - 1)
    case 2 => !InInt64(2 * v)
    case 5 => !InInt64(v + 256)
    case 6 => !InInt64(v - 256)
    case _ => false
  }

  lemma DropsWhen(strat: nat, v: int)
    requires InInt64(v)
    ensures DropsDigit(strat, v) <==> NeedsRoom(strat, v)
  {
  }

  lemma ChangedMeans(strat: nat, v: int, tape: Tape)
    requires strat < 8 && InInt64(v) && Changed(strat, v, tape).Some?
    ensures StrategyResult(strat, v, Changed(strat, v, tape).value.0)
  {
    hide Below;
  }

  /**
   One span of digits has made way for the decimal notation of a 64-bit number, and everything else
   stays.  The span [off, until) is the longest that 64 bits hold, or one digit shorter where the
   strategy needs the room, and never empty; the number is the strategy's result, in exact arithmetic,
   for the value of the span with the sign in front of it.
   */
  ghost predicate NumberReplaced(s: seq<Byte>, t: seq<Byte>, off: nat, until: nat, left: nat, strat: nat, now: int) {
    NumberChosen(s, off, until, left, strat, now) && t == s[..off] + Signed(now) + s[left..]
  }

  ghost predicate NumberChosen(s: seq<Byte>, off: nat, until: nat, left: nat, strat: nat, now: int) {
    && Maximal(s, off, until) && off < left <= |s| && AllDigits(s[off..left])
    && left == (if NeedsRoom(strat, SignedValue(s, off, until)) then until - 1 else until)
    && strat < 8 && StrategyResult(strat, SignedValue(s, off, left), now) && InInt64(now)
  }

  /** What MUT_ASCIINUM goes by once it has read a number and drawn a strategy. */
  lemma NumberDrawn(env: Env, s: seq<Byte>, tape: Tape)
    returns (off: nat, until: nat, left: nat, strat: nat, now: int)
    requires 4 <= |s| && Plan(env, AsciiNum, s, tape).Some?
    requires ReadNumber(s, Below(tape, |s|).value.0).Some?
    ensures NumberChosen(s, off, until, left, strat, now)
    ensures var choice := Plan(env, AsciiNum, s, tape).value.0;
      choice == if left - off == |Signed(now)| then Go(Store(off, Signed(now)))
                else if U32(off + |Signed(now)| + |s| - left) > env.maxLen then Again
                else Go(Renumber(off, left, Signed(now)))
  {
    hide ReadNumber, Signed, Changed, Below, Fits, ValueOf, Negated, StrategyResult, Maximal, TruncDiv, DropsDigit, U32;
    var (start, t1) := Below(tape, |s|).value;
    NumberFits(s, start);
    ReadNumberIs(s, start);
    var n := ReadNumber(s, start).value;
    var draw := Below(t1, 8).value;
    off, until, strat := n.off, n.until, draw.0;
    AdjustedIs(s, off, until, strat);
    DropsWhen(strat, n.value);
    ChangedFits(strat, n.value, draw.1);
    ChangedMeans(strat, Adjusted(strat, n.value), draw.1);
    left := if DropsDigit(strat, n.value) then until - 1 else until;
    now := Changed(strat, Adjusted(strat, n.value), draw.1).value.0;
  }

  /** Whenever MUT_ASCIINUM edits, it replaces a number. */
  lemma AsciiNumReplaces(env: Env, s: seq<Byte>, tape: Tape, t: seq<Byte>)
    returns (off: nat, until: nat, left: nat, strat: nat, now: int)
    requires 4 <= |s| && Leads(env, s, Plan(env, AsciiNum, s, tape), t) && !LeavesAlone(Plan(env, AsciiNum, s, tape))
    ensures NumberReplaced(s, t, off, until, left, strat, now)
  {
    hide NumberChosen, Plan, Signed, Below, Fits;
    assert ReadNumber(s, Below(tape, |s|).value.0).Some? by { NumberNeeded(env, s, tape); }
    off, until, left, strat, now := NumberDrawn(env, s, tape);
    OpIsLegal(env, s, Plan(env, AsciiNum, s, tape).value.0.op);
    assert off < left <= |s| by { ChosenInside(s, off, until, left, strat, now); }
  }

  lemma ChosenInside(s: seq<Byte>, off: nat, until: nat, left: nat, strat: nat, now: int)
    requires NumberChosen(s, off, until, left, strat, now)
    ensures off < left <= |s| && InInt64(now)
  {
  }

  lemma NumberNeeded(env: Env, s: seq<Byte>, tape: Tape)
    requires 4 <= |s| && Plan(env, AsciiNum, s, tape).Some?
    ensures Below(tape, |s|).Some?
    ensures ReadNumber(s, Below(tape, |s|).value.0).None? ==> LeavesAlone(Plan(env, AsciiNum, s, tape))
  {
    hide Below, ReadNumber, Signed, Changed;
  }

  /** Without a digit, wherever the scan starts, it leaves the buffer alone or asks for another kind. */
  lemma AsciiNumNeedsDigit(env: Env, s: seq<Byte>, tape: Tape)
    requires 4 <= |s| && Plan(env, AsciiNum, s, tape).Some?
    requires forall k | 0 <= k < |s| :: !IsDigit(s[k])
    ensures LeavesAlone(Plan(env, AsciiNum, s, tape))
  {
    hide Below, FirstDigit, DigitsEnd, ReadOn, Plan;
    NumberNeeded(env, s, tape);
    var found := FindNumber(s, Below(tape, |s|).value.0);
  }

  /** With a digit it edits, exactly unless the buffer with the new number would be above the limit. */
  lemma AsciiNumEdits(env: Env, s: seq<Byte>, tape: Tape)
    returns (off: nat, until: nat, left: nat, strat: nat, now: int)
    requires 4 <= |s| <= env.maxLen && |s| + 20 < WORD32 && Plan(env, AsciiNum, s, tape).Some?
    requires exists k :: 0 <= k < |s| && IsDigit(s[k])
    ensures NumberChosen(s, off, until, left, strat, now)
    ensures LeavesAlone(Plan(env, AsciiNum, s, tape)) <==> env.maxLen < |s| - (left - off) + |Signed(now)|
  {
    hide NumberChosen, Plan, Signed, Below, FirstDigit, DigitsEnd, ReadOn;
    NumberNeeded(env, s, tape);
    var found := FindNumber(s, Below(tape, |s|).value.0);
    off, until, left, strat, now := NumberDrawn(env, s, tape);
    ChosenInside(s, off, until, left, strat, now);
    Printed(now);
  }

  /**
   MUT_INSERTASCIINUM overwrites one to eight bytes with the last digits of a random 64-bit number, or
   with all its digits when it has fewer.
   */
  lemma InsertAsciiNumWrites(env: Env, s: seq<Byte>, tape: Tape, t: seq<Byte>)
    returns (at: nat, count: nat, number: Word)
    requires 1 <= |s| && Leads(env, s, Plan(env, InsertAsciiNum, s, tape), t)
      && !LeavesAlone(Plan(env, InsertAsciiNum, s, tape))
    ensures 1 <= count <= 8 && at + count <= |s| == |t| && AllDigits(t[at..at + count])
    ensures ValueOf(t[at..at + count]) == Remainder(number, Pow10(count))
    ensures forall k | 0 <= k < |s| && !(at <= k < at + count) :: t[k] == s[k]
  {
    hide Below, Digits, ValueOf, Pow10, After, LastDigits, Remainder;
    var (more, t1) := Below(tape, 8).value;
    var (pos, t2) := Below(t1, |s|).value;
    number := t2[0];
    var digits := Digits(number);
    at, count := pos, Min(1 + more, |digits|);
    var data := LastDigits(number, count);
    assert Plan(env, InsertAsciiNum, s, tape).value.0.op == Store(at, data);
    DigitsSuffix(number, count);
    StoredMany(env, s, at, data);
  }

  lemma StoredMany(env: Env, s: seq<Byte>, at: nat, data: seq<Byte>)
    requires 1 <= |s| <= env.maxLen && at + |data| <= |s|
    ensures var t := After(env, s, Store(at, data));
      && |t| == |s| && t[at..at + |data|] == data
      && forall k | 0 <= k < |s| && !(at <= k < at + |data|) :: t[k] == s[k]
  {
  }

  // ---------------------------------------------------------------- the 32-bit guards

  /** With this length limit no decision ever leads outside the buffers or beyond the limit. */
  ghost predicate SafeLimit(maxLen: nat) {
    forall env: Env, kind: Kind, s: seq<Byte>, tape: Tape ::
      env.Shape() && env.maxLen == maxLen && 1 <= |s| <= maxLen ==> SafeDecision(env, |s|, Plan(env, kind, s, tape))
  }

  ghost predicate SafeDecision(env: Env, len: nat, d: Decision) {
    d.Some? && d.value.0.Go? ==> OpOk(env, len, d.value.0.op)
  }

  lemma SmallGuardOk(env: Env, kind: Kind, s: seq<Byte>, tape: Tape)
    requires env.Valid() && 1 <= |s| <= env.maxLen
    ensures SafeDecision(env, |s|, Plan(env, kind, s, tape))
  {
    hide Plan;
    assert DecisionOk(env, |s|, tape, Plan(env, kind, s, tape));
  }

  function PlainEnv(maxLen: nat): (env: Env)
    ensures env.maxLen == maxLen && (maxLen < WORD32 ==> env.Shape())
  {
    Env(maxLen, [], [], [], 0, false, seq(STRATEGY_SIZE, _ => CloneCopy))
  }

  lemma ZeroWord(limit: nat, rest: Tape)
    requires 2 <= limit < WORD32
    ensures Below([0] + rest, limit) == Some((0, rest))
  {
    assert ([0] + rest)[0] == 0;
    SomeAccepted(limit);
    assert ([0] + rest)[1..] == rest;
  }

  lemma OneChoice(env: Env, tape: Tape)
    requires !env.runOver10m
    ensures BlockRange(env, tape) == Some(((1, HAVOC_BLK_SMALL), tape))
  {
  }

  /** A full buffer of a length near 2^32 wraps the guard of MUT_CLONE_COPY around. */
  lemma FullBufferGrows(maxLen: nat)
    requires maxLen < WORD32 <= maxLen + HAVOC_BLK_XL
    ensures var env := PlainEnv(maxLen);
      !SafeDecision(env, maxLen, Plan(env, CloneCopy, Repeat(0, maxLen), [0, 0, 0]))
  {
    var env, s := PlainEnv(maxLen), Repeat(0, maxLen);
    ZeroWord(32, [0, 0]);
    ZeroWord(maxLen, [0]);
    ZeroWord(maxLen, []);
    assert [0] + [0, 0] == [0, 0, 0] && [0] + [0] == [0, 0] && [0] + [] == [0];
    hide Below;
    assert ChooseBlockLen(env, maxLen, [0, 0, 0]) == Some((1, [0, 0])) by {
      OneChoice(env, [0, 0, 0]);
    }
    assert PlanCloneCopy(env, s, [0, 0, 0]) == Some((Go(CloneBlock(0, 0, 1)), []));
  }

  /** The guards of the insertions, sums of 32-bit numbers, hold the length limit exactly when they cannot wrap. */
  lemma SafeLimitIff(maxLen: nat)
    requires maxLen < WORD32
    ensures SafeLimit(maxLen) <==> maxLen + HAVOC_BLK_XL < WORD32
  {
    hide Plan, SafeDecision;
    if maxLen + HAVOC_BLK_XL < WORD32 {
      forall env: Env, kind: Kind, s: seq<Byte>, tape: Tape | env.Shape() && env.maxLen == maxLen && 1 <= |s| <= maxLen
        ensures SafeDecision(env, |s|, Plan(env, kind, s, tape))
      {
        SmallGuardOk(env, kind, s, tape);
      }
    } else {
      FullBufferGrows(maxLen);
      var env, s := PlainEnv(maxLen), Repeat(0, maxLen);
      assert !SafeDecision(env, |s|, Plan(env, CloneCopy, s, [0, 0, 0]));
    }
  }
}
