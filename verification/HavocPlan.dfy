/**
 What `afl_mutate` of afl-mutations.h decides in one step: which edit, from the random words, the buffer and
 the limits.
 */
module HavocPlan {
  import opened Arithmetic
  import opened Bytes
  import opened Wrappers
  import opened Bits
  import opened Decimal
  import opened Rng
  import opened HavocEdits
  import opened HavocWords
  import opened HavocShuffle
  import opened HavocNumber

  const HAVOC_BLK_SMALL: nat := 32
  const HAVOC_BLK_MEDIUM: nat := 128
  const HAVOC_BLK_LARGE: nat := 1500
  const HAVOC_BLK_XL: nat := 32768
  const ARITH_MAX: nat := 35
  const MAX_DICT_FILE: nat := 128
  const STRATEGY_SIZE: nat := 256

  const INTERESTING_8: seq<int> := [-128, -1, 0, 1, 16, 32, 64, 100, 127]

  const INTERESTING_16: seq<int> :=
    INTERESTING_8 + [-32768, -129, 128, 255, 256, 512, 1000, 1024, 4096, 32767]

  const INTERESTING_32: seq<int> :=
    INTERESTING_16 + [-2147483648, -100663046, -32769, 32768, 65535, 65536, 100663045, 2139095040, 2147483647]

  datatype Kind =
    | FlipBit | Interesting8 | Interesting16 | Interesting16BE | Interesting32 | Interesting32BE
    | Arith8Sub | Arith8 | Arith16Sub | Arith16BESub | Arith16 | Arith16BE
    | Arith32Sub | Arith32BESub | Arith32 | Arith32BE | Rand8
    | CloneCopy | CloneFixed | OverwriteCopy | OverwriteFixed | ByteAdd | ByteSub | Flip8
    | SwitchBlocks | Del | ShuffleBlock | DelOne | InsertOne | AsciiNum | InsertAsciiNum
    | ExtraOverwrite | ExtraInsert | AutoExtraOverwrite | AutoExtraInsert | SpliceOverwrite | SpliceInsert

  /** What is fixed during one call; an absent splice buffer is an empty one. */
  datatype Env = Env(
    maxLen: nat, extras: seq<seq<Byte>>, autoExtras: seq<seq<Byte>>, splice: seq<Byte>,
    queueCycle: nat, runOver10m: bool, table: seq<Kind>)
  {
    /** Lengths are 32-bit numbers, with room for the guards' sums. */
    ghost predicate Valid() {
      Shape() && maxLen + HAVOC_BLK_XL < WORD32
    }

    /** Dictionary tokens are short, and counted in 32 bits. */
    ghost predicate Shape() {
      && |table| == STRATEGY_SIZE && maxLen < WORD32 && |splice| < WORD32
      && |extras| < WORD32 && |autoExtras| < WORD32
      && (forall i | 0 <= i < |extras| :: |extras[i]| <= MAX_DICT_FILE)
      && (forall i | 0 <= i < |autoExtras| :: |autoExtras[i]| <= MAX_DICT_FILE)
    }
  }

  /** What is done to memory, one constructor for each way the code does it. */
  datatype Op =
    | Nothing
    | Store(at: nat, data: seq<Byte>)
    | CloneBlock(from: nat, to: nat, count: nat)
    | CloneByte(to: nat, item: Byte, count: nat)
    | MoveBlock(from: nat, to: nat, count: nat)
    | FillBlock(to: nat, item: Byte, count: nat)
    | Switch(from: nat, to: nat, count: nat)
    | Cut(from: nat, count: nat)
    | Shuffle(at: nat, partners: seq<nat>)
    | Renumber(off: nat, until: nat, digits: seq<Byte>)
    | PushIn(at: nat, data: seq<Byte>)
    | SpliceIn(from: nat, to: nat, count: nat)

  /** `Again` is the jump back to the start of the step. */
  datatype Choice = Go(op: Op) | Again

  type Decision = Option<(Choice, Tape)>

  /** The operation stays inside the buffer, the scratch buffer, the splice buffer, and the length limit. */
  ghost predicate OpOk(env: Env, len: nat, op: Op) {
    match op
    case Nothing => true
    case Store(at, data) => at + |data| <= len
    case CloneBlock(from, to, count) => from + count <= len && to <= len && len + count <= env.maxLen
    case CloneByte(to, _, count) => to <= len && len + count <= env.maxLen
    case MoveBlock(from, to, count) => from + count <= len && to + count <= len
    case FillBlock(to, _, count) => to + count <= len
    case Switch(from, to, count) =>
      from + count <= len && to + count <= len && (from + count <= to || to + count <= from)
    case Cut(from, count) => from + count <= len && count < len
    case Shuffle(at, partners) => Partners(partners, |partners| + 1) && at + |partners| + 1 <= len
    case Renumber(off, until, digits) =>
      off < until <= len && 0 < |digits| && len - (until - off) + |digits| <= env.maxLen
    case PushIn(at, data) => at <= len && len + |data| <= env.maxLen
    case SpliceIn(from, to, count) => from + count <= |env.splice| && to <= len && len + count <= env.maxLen
  }

  function Repeat(item: Byte, count: nat): (r: seq<Byte>)
    ensures |r| == count && forall i | 0 <= i < count :: r[i] == item
  {
    seq(count, _ => item)
  }

  /** The sequence edit that an operation amounts to on the buffer `s`. */
  function EditOf(env: Env, s: seq<Byte>, op: Op): (e: Edit)
    requires OpOk(env, |s|, op)
  {
    match op
    case Nothing => Keep
    case Store(at, data) => Overwrite(at, data)
    case CloneBlock(from, to, count) => Insert(to, s[from..from + count])
    case CloneByte(to, item, count) => Insert(to, Repeat(item, count))
    case MoveBlock(from, to, count) => Overwrite(to, s[from..from + count])
    case FillBlock(to, item, count) => Overwrite(to, Repeat(item, count))
    case Switch(from, to, count) => if from <= to then SwapBlocks(from, to, count) else SwapBlocks(to, from, count)
    case Cut(from, count) => Delete(from, count)
    case Shuffle(at, partners) => Permute(at, Origins(|partners| + 1, partners))
    case Renumber(off, until, digits) => Replace(off, until, digits)
    case PushIn(at, data) => Insert(at, data)
    case SpliceIn(from, to, count) => Insert(to, env.splice[from..from + count])
  }

  /** Every operation that is in order is an edit that fits and leaves a legal length. */
  lemma OpIsLegal(env: Env, s: seq<Byte>, op: Op)
    requires OpOk(env, |s|, op) && 1 <= |s| <= env.maxLen
    ensures var e := EditOf(env, s, op); Fits(e, |s|) && 1 <= NewLength(e, |s|) <= env.maxLen
  {
    if op.Shuffle? {
      hide CycleOrder, Partners;
      ShuffleIsOneCycle(|op.partners| + 1, op.partners);
      CycleIsPermutation(Origins(|op.partners| + 1, op.partners));
    }
  }

  // ---------------------------------------------------------------- drawing

  /** Unsigned 32-bit sums. */
  function U32(v: int): (r: nat)
    ensures r < WORD32 && (0 <= v < WORD32 ==> r == v)
  {
    v % WORD32
  }

  /** The range of block lengths that is aimed at. */
  function BlockRange(env: Env, tape: Tape): (r: Option<((nat, nat), Tape)>)
    ensures r.Some? ==> |r.value.1| <= |tape| && 1 <= r.value.0.0 <= r.value.0.1 <= HAVOC_BLK_XL
  {
    var cycles := if env.runOver10m then Min(env.queueCycle, 3) else 1;
    var (which, t1) :- Below(tape, cycles);
    if which == 0 then Some(((1, HAVOC_BLK_SMALL), t1))
    else if which == 1 then Some(((HAVOC_BLK_SMALL, HAVOC_BLK_MEDIUM), t1))
    else
      var (big, t2) :- Below(t1, 10);
      if big != 0 then Some(((HAVOC_BLK_MEDIUM, HAVOC_BLK_LARGE), t2))
      else Some(((HAVOC_BLK_LARGE, HAVOC_BLK_XL), t2))
  }

  /** `choose_block_len`: between 1 and the limit; 1 also when the limit is 0. */
  function ChooseBlockLen(env: Env, limit: nat, tape: Tape): (r: Draw)
    ensures r.Some? ==> |r.value.1| <= |tape| && 1 <= r.value.0 <= HAVOC_BLK_XL
    ensures r.Some? ==> r.value.0 <= limit || (limit == 0 && r.value.0 == 1)
  {
    var ((low, high), t1) :- BlockRange(env, tape);
    var least := if low >= limit then 1 else low;
    var (r, t2) :- Below(t1, U32(Min(high, limit) - least + 1));
    Some((least + r, t2))
  }

  /** `do x = rand_below(limit) while (x == other)` */
  function DrawOther(tape: Tape, limit: nat, other: nat): (r: Draw)
    requires 2 <= limit
    ensures r.Some? ==> |r.value.1| < |tape| && r.value.0 < limit && r.value.0 != other
    decreases |tape|
  {
    var (x, rest) :- Below(tape, limit);
    if x == other then DrawOther(rest, limit, other) else Some((x, rest))
  }

  /** The partners that MUT_SHUFFLE draws for a block of `n`. */
  function DrawPartners(tape: Tape, n: nat): (r: Option<(seq<nat>, Tape)>)
    requires 1 <= n
    ensures r.Some? ==> |r.value.1| <= |tape| && Partners(r.value.0, n)
    decreases n
  {
    if n == 1 then Some(([], tape))
    else
      var (j, t1) :- DrawOther(tape, n, n - 1);
      var (js, t2) :- DrawPartners(t1, n - 1);
      Some(([j] + js, t2))
  }

  // ---------------------------------------------------------------- the cases

  /** What every decision keeps. */
  ghost predicate DecisionOk(env: Env, len: nat, tape: Tape, d: Decision) {
    d.Some? ==>
      && |d.value.1| <= |tape|
      && (env.Valid() && 1 <= len <= env.maxLen && d.value.0.Go? ==> OpOk(env, len, d.value.0.op))
  }

  function Do(op: Op, rest: Tape): (d: Decision)
    ensures d == Some((Go(op), rest))
  {
    Some((Go(op), rest))
  }

  /** Too small for this kind: no edit, no retry. */
  function Skip(rest: Tape): (d: Decision)
    ensures d == Some((Go(Nothing), rest))
  {
    Some((Go(Nothing), rest))
  }

  /** A byte plus or minus something, wrapped around. */
  function AddByte(b: Byte, delta: int): Byte {
    Wrap(delta + b, 256)
  }

  function PlanFlipBit(env: Env, s: seq<Byte>, tape: Tape): (d: Decision)
    requires 1 <= |s|
    ensures DecisionOk(env, |s|, tape, d)
  {
    var (bit, t1) :- Below(tape, 8);
    var (off, t2) :- Below(t1, |s|);
    Pow2Byte(bit);
    Do(Store(off, [XorByte(s[off], Pow2(bit))]), t2)
  }

  function PlanInteresting8(env: Env, s: seq<Byte>, tape: Tape): (d: Decision)
    requires 1 <= |s|
    ensures DecisionOk(env, |s|, tape, d)
  {
    var (item, t1) :- Below(tape, |INTERESTING_8|);
    var (off, t2) :- Below(t1, |s|);
    Do(Store(off, [Wrap(INTERESTING_8[item], 256)]), t2)
  }

  /** What an arithmetic kind adds that has drawn `item`. */
  function Delta(kind: Kind, item: int): int {
    match kind
    case Arith8Sub => -item
    case Arith16Sub => -item
    case Arith16BESub => -item
    case Arith32Sub => -item
    case Arith32BESub => -item
    case _ => item
  }

  predicate IsBig16(kind: Kind) {
    kind == Arith16BE || kind == Arith16BESub
  }

  /** The cases that add to or subtract from a byte. */
  function PlanArith8(env: Env, kind: Kind, s: seq<Byte>, tape: Tape): (d: Decision)
    requires 1 <= |s|
    ensures DecisionOk(env, |s|, tape, d)
  {
    var (item, t1) :- Below(tape, ARITH_MAX);
    var (off, t2) :- Below(t1, |s|);
    Do(Store(off, [AddByte(s[off], Delta(kind, 1 + item))]), t2)
  }

  function PlanRand8(env: Env, s: seq<Byte>, tape: Tape): (d: Decision)
    requires 1 <= |s|
    ensures DecisionOk(env, |s|, tape, d)
  {
    var (off, t1) :- Below(tape, |s|);
    var (item, t2) :- Below(t1, 255);
    Do(Store(off, [XorByte(s[off], item + 1)]), t2)
  }

  /** MUT_BYTEADD and MUT_BYTESUB. */
  function PlanBump(env: Env, delta: int, s: seq<Byte>, tape: Tape): (d: Decision)
    requires 1 <= |s|
    ensures DecisionOk(env, |s|, tape, d)
  {
    var (off, t1) :- Below(tape, |s|);
    Do(Store(off, [AddByte(s[off], delta)]), t1)
  }

  function PlanFlip8(env: Env, s: seq<Byte>, tape: Tape): (d: Decision)
    requires 1 <= |s|
    ensures DecisionOk(env, |s|, tape, d)
  {
    var (off, t1) :- Below(tape, |s|);
    Do(Store(off, [XorByte(s[off], 255)]), t1)
  }

  lemma Pow2Byte(bit: nat)
    requires bit < 8
    ensures Pow2(bit) < 256
  {
    assert Pow2(4) == 16;
    Pow2Sum(4, 4);
    Pow2Grows(bit, 8);
  }

  /** The cases that set a 16-bit word to an interesting value. */
  function PlanInteresting16(env: Env, big: bool, s: seq<Byte>, tape: Tape): (d: Decision)
    ensures DecisionOk(env, |s|, tape, d)
  {
    if |s| < 2 then Skip(tape)
    else
      var (item, t1) :- Below(tape, |INTERESTING_16|);
      var (off, t2) :- Below(t1, |s| - 1);
      var v := Wrap(INTERESTING_16[item], WORD16);
      Do(Store(off, Bytes16(if big then Swap16(v) else v)), t2)
  }

  function PlanInteresting32(env: Env, big: bool, s: seq<Byte>, tape: Tape): (d: Decision)
    ensures DecisionOk(env, |s|, tape, d)
  {
    if |s| < 4 then Skip(tape)
    else
      var (item, t1) :- Below(tape, |INTERESTING_32|);
      var (off, t2) :- Below(t1, |s| - 3);
      var v := Wrap(INTERESTING_32[item], WORD32);
      Do(Store(off, Bytes32(if big then Swap32(v) else v)), t2)
  }

  /** The cases that add to or subtract from a 16-bit word. */
  function PlanArith16(env: Env, kind: Kind, s: seq<Byte>, tape: Tape): (d: Decision)
    ensures DecisionOk(env, |s|, tape, d)
  {
    if |s| < 2 then Skip(tape)
    else
      var (pos, t1) :- Below(tape, |s| - 1);
      var (item, t2) :- Below(t1, ARITH_MAX);
      var word, delta := s[pos..pos + 2], Delta(kind, 1 + item);
      Do(Store(pos, if IsBig16(kind) then Added16Swapped(word, delta) else Added16(word, delta)), t2)
  }

  /** The bytes that the four kinds of 32-bit arithmetic store. */
  function Sum32(kind: Kind, word: seq<Byte>, item: int): (r: seq<Byte>)
    requires |word| == 4 && 0 <= item
    ensures |r| == 4
  {
    match kind
    case Arith32Sub => Added32(word, -item)
    case Arith32BESub => Added32Swapped(word, -item)
    case Arith32 => Added32(word, item)
    case _ => Added32BE(word, item)
  }

  function PlanArith32(env: Env, kind: Kind, s: seq<Byte>, tape: Tape): (d: Decision)
    ensures DecisionOk(env, |s|, tape, d)
  {
    if |s| < 4 then Skip(tape)
    else
      var (pos, t1) :- Below(tape, |s| - 3);
      var (item, t2) :- Below(t1, ARITH_MAX);
      Do(Store(pos, Sum32(kind, s[pos..pos + 4], 1 + item)), t2)
  }

  function PlanCloneCopy(env: Env, s: seq<Byte>, tape: Tape): (d: Decision)
    requires 1 <= |s|
    ensures DecisionOk(env, |s|, tape, d)
  {
    var len := |s|;
    if U32(len + HAVOC_BLK_XL) < env.maxLen then
      var (count, t1) :- ChooseBlockLen(env, len, tape);
      var (from, t2) :- Below(t1, len - count + 1);
      var (to, t3) :- Below(t2, len);
      Do(CloneBlock(from, to, count), t3)
    else if len < 8 then Skip(tape)
    else Some((Again, tape))
  }

  /** The byte that a block of constant bytes is filled with: random, or the one before the block. */
  function FillByte(s: seq<Byte>, to: nat, tape: Tape): (r: Option<(Byte, Tape)>)
    requires to < |s|
    ensures r.Some? ==> |r.value.1| <= |tape|
  {
    var (strat, t1) :- Below(tape, 2);
    if strat != 0 then
      var (item, t2) :- Below(t1, 256);
      Some((item, t2))
    else Some((s[if to > 0 then to - 1 else 0], t1))
  }

  function PlanCloneFixed(env: Env, s: seq<Byte>, tape: Tape): (d: Decision)
    requires 1 <= |s|
    ensures DecisionOk(env, |s|, tape, d)
  {
    var len := |s|;
    if U32(len + HAVOC_BLK_XL) < env.maxLen then
      var (count, t1) :- ChooseBlockLen(env, HAVOC_BLK_XL, tape);
      var (to, t2) :- Below(t1, len);
      var (item, t3) :- FillByte(s, to, t2);
      Do(CloneByte(to, item, count), t3)
    else if len < 8 then Skip(tape)
    else Some((Again, tape))
  }

  function PlanOverwriteCopy(env: Env, s: seq<Byte>, tape: Tape): (d: Decision)
    ensures DecisionOk(env, |s|, tape, d)
  {
    var len := |s|;
    if len < 2 then Skip(tape)
    else
      var (count, t1) :- ChooseBlockLen(env, len - 1, tape);
      var (from, t2) :- Below(t1, len - count + 1);
      var (to, t3) :- Below(t2, len - count + 1);
      Do(if from != to then MoveBlock(from, to, count) else Nothing, t3)
  }

  function PlanOverwriteFixed(env: Env, s: seq<Byte>, tape: Tape): (d: Decision)
    ensures DecisionOk(env, |s|, tape, d)
  {
    var len := |s|;
    if len < 2 then Skip(tape)
    else
      var (count, t1) :- ChooseBlockLen(env, len - 1, tape);
      var (to, t2) :- Below(t1, len - count + 1);
      var (item, t3) :- FillByte(s, to, t2);
      Do(FillBlock(to, item, count), t3)
  }

  function PlanSwitch(env: Env, s: seq<Byte>, tape: Tape): (d: Decision)
    ensures DecisionOk(env, |s|, tape, d)
  {
    var len := |s|;
    if len < 4 then Skip(tape)
    else
      var (from, t1) :- Below(tape, len);
      var (to, t2) :- DrawOther(t1, len, from);
      var apart := if from < to then to - from else from - to;
      var toEnd := if from < to then len - to else len - from;
      var (count, t3) :- ChooseBlockLen(env, Min(apart, toEnd), t2);
      Do(Switch(from, to, count), t3)
  }

  function PlanDel(env: Env, s: seq<Byte>, tape: Tape): (d: Decision)
    ensures DecisionOk(env, |s|, tape, d)
  {
    var len := |s|;
    if len < 2 then Skip(tape)
    else
      var (count, t1) :- ChooseBlockLen(env, len - 1, tape);
      var (from, t2) :- Below(t1, len - count + 1);
      Do(Cut(from, count), t2)
  }

  function PlanDelOne(env: Env, s: seq<Byte>, tape: Tape): (d: Decision)
    ensures DecisionOk(env, |s|, tape, d)
  {
    if |s| < 2 then Skip(tape)
    else
      var (from, t1) :- Below(tape, |s|);
      Do(Cut(from, 1), t1)
  }

  function PlanShuffle(env: Env, s: seq<Byte>, tape: Tape): (d: Decision)
    ensures DecisionOk(env, |s|, tape, d)
  {
    var len := |s|;
    if len < 4 then Skip(tape)
    else
      var (blen, t1) :- ChooseBlockLen(env, len - 1, tape);
      var (off, t2) :- Below(t1, len - blen + 1);
      var (partners, t3) :- DrawPartners(t2, blen);
      Do(Shuffle(off, partners), t3)
  }

  function PlanInsertOne(env: Env, s: seq<Byte>, tape: Tape): (d: Decision)
    ensures DecisionOk(env, |s|, tape, d)
  {
    var len := |s|;
    if len < 2 then Skip(tape)
    else if U32(len + 1) > env.maxLen then Some((Again, tape))
    else
      var (to, t1) :- Below(tape, len);
      var (item, t2) :- FillByte(s, to, t1);
      Do(CloneByte(to, item, 1), t2)
  }

  /** MUT_ASCIINUM once the number has been read. */
  function PlanNumber(env: Env, len: nat, found: Option<Number>, tape: Tape): (d: Decision)
    requires found.Some? ==> found.value.off < found.value.until <= len && -INT64_MAX <= found.value.value <= INT64_MAX
    requires found.Some? ==> found.value.until == found.value.off + 1 ==> -9 <= found.value.value <= 9
    ensures DecisionOk(env, len, tape, d)
  {
    match found
    case None => if len < 8 then Skip(tape) else Some((Again, tape))
    case Some(Number(off, until, value)) =>
      var (strat, t1) :- Below(tape, 8);
      var left := if DropsDigit(strat, value) then until - 1 else until;
      ChangedFits(strat, value, t1);
      var (now, t2) :- Changed(strat, Adjusted(strat, value), t1);
      var digits := Signed(now);
      Printed(now);
      if left - off == |digits| then Do(Store(off, digits), t2)
      else if U32(off + |digits| + len - left) > env.maxLen then Some((Again, t2))
      else Do(Renumber(off, left, digits), t2)
  }

  function PlanAsciiNum(env: Env, s: seq<Byte>, tape: Tape): (d: Decision)
    ensures DecisionOk(env, |s|, tape, d)
  {
    if |s| < 4 then Skip(tape)
    else
      var (start, t1) :- Below(tape, |s|);
      NumberFits(s, start);
      PlanNumber(env, |s|, ReadNumber(s, start), t1)
  }

  lemma NumberFits(s: seq<Byte>, start: nat)
    requires start < |s|
    ensures var n := ReadNumber(s, start); n.Some? ==>
      && -INT64_MAX <= n.value.value <= INT64_MAX
      && (n.value.until == n.value.off + 1 ==> -9 <= n.value.value <= 9)
  {
    var n := ReadNumber(s, start);
    if n.Some? {
      ReadNumberIs(s, start);
      var off := n.value.off;
      if n.value.until == off + 1 {
        assert s[off..off + 1] == [s[off]];
        assert IsDigit(s[off..off + 1][0]);
        OneDigit(s[off]);
      }
    }
  }

  function PlanInsertAsciiNum(env: Env, s: seq<Byte>, tape: Tape): (d: Decision)
    requires 1 <= |s|
    ensures DecisionOk(env, |s|, tape, d)
  {
    var len := |s|;
    var (more, t1) :- Below(tape, 8);
    var (pos, t2) :- Below(t1, len);
    if len < U32(pos + 1 + more) then (if len < 8 then Skip(t2) else Some((Again, t2)))
    else if t2 == [] then None
    else
      var digits := Digits(t2[0]);
      var count := Min(1 + more, |digits|);
      Do(Store(pos, LastDigits(t2[0], count)), t2[1..])
  }

  function PlanExtraOverwrite(env: Env, tokens: seq<seq<Byte>>, s: seq<Byte>, tape: Tape): (d: Decision)
    ensures DecisionOk(env, |s|, tape, d)
  {
    if tokens == [] then Some((Again, tape))
    else
      var (which, t1) :- Below(tape, |tokens|);
      var token := tokens[which];
      if |token| > |s| then Some((Again, t1))
      else
        var (at, t2) :- Below(t1, |s| - |token| + 1);
        Do(Store(at, token), t2)
  }

  function PlanExtraInsert(env: Env, tokens: seq<seq<Byte>>, s: seq<Byte>, tape: Tape): (d: Decision)
    requires env.Valid() ==> forall i | 0 <= i < |tokens| :: |tokens[i]| <= MAX_DICT_FILE
    ensures DecisionOk(env, |s|, tape, d)
  {
    if tokens == [] then Some((Again, tape))
    else
      var (which, t1) :- Below(tape, |tokens|);
      var token := tokens[which];
      if U32(|s| + |token|) > env.maxLen then Some((Again, t1))
      else
        var (at, t2) :- Below(t1, |s| + 1);
        Do(PushIn(at, token), t2)
  }

  function PlanSpliceOverwrite(env: Env, s: seq<Byte>, tape: Tape): (d: Decision)
    ensures DecisionOk(env, |s|, tape, d)
  {
    if env.splice == [] then Some((Again, tape))
    else
      var (length, t1) :- ChooseBlockLen(env, |env.splice| - 1, tape);
      var count := Min(length, |s|);
      var (from, t2) :- Below(t1, |env.splice| - count + 1);
      var (to, t3) :- Below(t2, |s| - count + 1);
      Do(Store(to, env.splice[from..from + count]), t3)
  }

  function PlanSpliceInsert(env: Env, s: seq<Byte>, tape: Tape): (d: Decision)
    ensures DecisionOk(env, |s|, tape, d)
  {
    if env.splice == [] then Some((Again, tape))
    else if U32(|s| + HAVOC_BLK_XL) > env.maxLen then Some((Again, tape))
    else
      var (count, t1) :- ChooseBlockLen(env, |env.splice|, tape);
      var (from, t2) :- Below(t1, |env.splice| - count + 1);
      var (to, t3) :- Below(t2, |s| + 1);
      Do(SpliceIn(from, to, count), t3)
  }

  /** The switch over the 37 kinds. */
  function Plan(env: Env, kind: Kind, s: seq<Byte>, tape: Tape): (d: Decision)
    requires 1 <= |s|
    ensures DecisionOk(env, |s|, tape, d)
  {
    match kind
    case FlipBit => PlanFlipBit(env, s, tape)
    case Interesting8 => PlanInteresting8(env, s, tape)
    case Interesting16 => PlanInteresting16(env, false, s, tape)
    case Interesting16BE => PlanInteresting16(env, true, s, tape)
    case Interesting32 => PlanInteresting32(env, false, s, tape)
    case Interesting32BE => PlanInteresting32(env, true, s, tape)
    case Arith8Sub => PlanArith8(env, kind, s, tape)
    case Arith8 => PlanArith8(env, kind, s, tape)
    case Arith16Sub => PlanArith16(env, kind, s, tape)
    case Arith16BESub => PlanArith16(env, kind, s, tape)
    case Arith16 => PlanArith16(env, kind, s, tape)
    case Arith16BE => PlanArith16(env, kind, s, tape)
    case Arith32Sub => PlanArith32(env, kind, s, tape)
    case Arith32BESub => PlanArith32(env, kind, s, tape)
    case Arith32 => PlanArith32(env, kind, s, tape)
    case Arith32BE => PlanArith32(env, kind, s, tape)
    case Rand8 => PlanRand8(env, s, tape)
    case CloneCopy => PlanCloneCopy(env, s, tape)
    case CloneFixed => PlanCloneFixed(env, s, tape)
    case OverwriteCopy => PlanOverwriteCopy(env, s, tape)
    case OverwriteFixed => PlanOverwriteFixed(env, s, tape)
    case ByteAdd => PlanBump(env, 1, s, tape)
    case ByteSub => PlanBump(env, -1, s, tape)
    case Flip8 => PlanFlip8(env, s, tape)
    case SwitchBlocks => PlanSwitch(env, s, tape)
    case Del => PlanDel(env, s, tape)
    case ShuffleBlock => PlanShuffle(env, s, tape)
    case DelOne => PlanDelOne(env, s, tape)
    case InsertOne => PlanInsertOne(env, s, tape)
    case AsciiNum => PlanAsciiNum(env, s, tape)
    case InsertAsciiNum => PlanInsertAsciiNum(env, s, tape)
    case ExtraOverwrite => PlanExtraOverwrite(env, env.extras, s, tape)
    case ExtraInsert => PlanExtraInsert(env, env.extras, s, tape)
    case AutoExtraOverwrite => PlanExtraOverwrite(env, env.autoExtras, s, tape)
    case AutoExtraInsert => PlanExtraInsert(env, env.autoExtras, s, tape)
    case SpliceOverwrite => PlanSpliceOverwrite(env, s, tape)
    case SpliceInsert => PlanSpliceInsert(env, s, tape)
  }

  /** One step, with its retries: every retry takes words off the tape. */
  function StepOf(env: Env, s: seq<Byte>, tape: Tape): (r: Option<(Op, Tape)>)
    requires env.Valid() && 1 <= |s| <= env.maxLen
    ensures r.Some? ==> OpOk(env, |s|, r.value.0) && |r.value.1| < |tape|
    decreases |tape|
  {
    var (which, t1) :- Below(tape, STRATEGY_SIZE);
    var (choice, t2) :- Plan(env, env.table[which], s, t1);
    match choice
    case Go(op) => Some((op, t2))
    case Again => StepOf(env, s, t2)
  }

  /** The buffer, the rest of the tape and the edits after `steps` steps. */
  function Mutated(env: Env, s: seq<Byte>, steps: nat, tape: Tape): (r: Option<(seq<Byte>, Tape, seq<Edit>)>)
    requires env.Valid() && 1 <= |s| <= env.maxLen
    decreases steps
  {
    if steps == 0 then Some((s, tape, []))
    else
      var (op, t1) :- StepOf(env, s, tape);
      OpIsLegal(env, s, op);
      var e := EditOf(env, s, op);
      var (final, rest, edits) :- Mutated(env, Apply(e, s), steps - 1, t1);
      Some((final, rest, [e] + edits))
  }
}
