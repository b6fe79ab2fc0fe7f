/** Which random words the havoc stage looks at: those it uses up, and none behind them. */
module HavocReads {
  import opened Arithmetic
  import opened Bytes
  import opened Wrappers
  import opened Decimal
  import opened Rng
  import opened HavocWords
  import opened HavocNumber
  import opened HavocPlan
  import opened HavocSteps

  // ---------------------------------------------------------------- draws

  lemma Regroup(a: Tape, b: Tape, c: Tape)
    ensures (a + b) + c == a + (b + c)
  {
  }

  lemma NoWords(rest: Tape)
    ensures [] + rest == rest
  {
  }

  lemma {:induction false} BelowReads(tape: Tape, limit: nat) returns (used: Tape)
    requires Below(tape, limit).Some?
    ensures tape == used + Below(tape, limit).value.1
    ensures forall other :: Below(used + other, limit) == Some((Below(tape, limit).value.0, other))
    decreases |tape|
  {
    hide Accepted;
    var more: Tape := [];
    if limit >= 2 && !Accepted(tape[0], limit) {
      more := BelowReads(tape[1..], limit);
    }
    used := if limit >= 2 then [tape[0]] + more else [];
    forall other: Tape
      ensures Below(used + other, limit) == Some((Below(tape, limit).value.0, other))
    {
      NoWords(other);
      if limit >= 2 {
        assert (used + other)[0] == tape[0] && (used + other)[1..] == more + other;
      }
    }
  }

  lemma TwoReads(tape: Tape, a: nat, b: nat) returns (used: Tape)
    requires Below(tape, a).Some? && Below(Below(tape, a).value.1, b).Some?
    ensures var (v, t1) := Below(tape, a).value; var (w, t2) := Below(t1, b).value;
      && tape == used + t2
      && forall other :: var d := Below(used + other, a);
           d.Some? && d.value.0 == v && Below(d.value.1, b) == Some((w, other))
  {
    hide Below;
    var x := BelowReads(tape, a);
    var y := BelowReads(Below(tape, a).value.1, b);
    used := x + y;
    forall other: Tape
      ensures used + other == x + (y + other)
    {
      Regroup(x, y, other);
    }
  }

  lemma RangeReads(env: Env, tape: Tape) returns (used: Tape)
    requires BlockRange(env, tape).Some?
    ensures tape == used + BlockRange(env, tape).value.1
    ensures forall other :: BlockRange(env, used + other) == Some((BlockRange(env, tape).value.0, other))
  {
    hide Below;
    var cycles := if env.runOver10m then Min(env.queueCycle, 3) else 1;
    var (which, t1) := Below(tape, cycles).value;
    if which <= 1 {
      used := BelowReads(tape, cycles);
    } else {
      used := TwoReads(tape, cycles, 10);
    }
  }

  lemma LengthReads(env: Env, limit: nat, tape: Tape) returns (used: Tape)
    requires ChooseBlockLen(env, limit, tape).Some?
    ensures tape == used + ChooseBlockLen(env, limit, tape).value.1
    ensures forall other ::
      ChooseBlockLen(env, limit, used + other) == Some((ChooseBlockLen(env, limit, tape).value.0, other))
  {
    hide Below, BlockRange;
    var ((low, high), t1) := BlockRange(env, tape).value;
    var least := if low >= limit then 1 else low;
    var a := RangeReads(env, tape);
    var b := BelowReads(t1, U32(Min(high, limit) - least + 1));
    used := a + b;
    forall other: Tape
      ensures used + other == a + (b + other)
    {
      Regroup(a, b, other);
    }
  }

  lemma {:induction false} OtherReads(tape: Tape, limit: nat, no: nat) returns (used: Tape)
    requires 2 <= limit && DrawOther(tape, limit, no).Some?
    ensures tape == used + DrawOther(tape, limit, no).value.1
    ensures forall other :: DrawOther(used + other, limit, no) == Some((DrawOther(tape, limit, no).value.0, other))
    decreases |tape|
  {
    hide Below;
    var (x, rest) := Below(tape, limit).value;
    var a := BelowReads(tape, limit);
    var b: Tape := [];
    if x == no {
      b := OtherReads(rest, limit, no);
    }
    used := a + b;
    forall other: Tape
      ensures DrawOther(used + other, limit, no) == Some((DrawOther(tape, limit, no).value.0, other))
    {
      Regroup(a, b, other);
      NoWords(other);
    }
  }

  lemma {:induction false} PartnersRead(tape: Tape, n: nat) returns (used: Tape)
    requires 1 <= n && DrawPartners(tape, n).Some?
    ensures tape == used + DrawPartners(tape, n).value.1
    ensures forall other :: DrawPartners(used + other, n) == Some((DrawPartners(tape, n).value.0, other))
    decreases n
  {
    hide DrawOther;
    if n == 1 {
      used := [];
      forall other: Tape
        ensures used + other == other
      {
        NoWords(other);
      }
    } else {
      var a := OtherReads(tape, n, n - 1);
      var b := PartnersRead(DrawOther(tape, n, n - 1).value.1, n - 1);
      used := a + b;
      forall other: Tape
        ensures used + other == a + (b + other)
      {
        Regroup(a, b, other);
      }
    }
  }

  lemma FillReads(s: seq<Byte>, to: nat, tape: Tape) returns (used: Tape)
    requires to < |s| && FillByte(s, to, tape).Some?
    ensures tape == used + FillByte(s, to, tape).value.1
    ensures forall other :: FillByte(s, to, used + other) == Some((FillByte(s, to, tape).value.0, other))
  {
    hide Below;
    if Below(tape, 2).value.0 != 0 {
      used := TwoReads(tape, 2, 256);
    } else {
      used := BelowReads(tape, 2);
    }
  }

  lemma WordReads(tape: Tape) returns (used: Tape)
    requires tape != []
    ensures used == [tape[0]] && tape == used + tape[1..]
    ensures forall other: Tape :: used + other != [] && (used + other)[0] == tape[0] && (used + other)[1..] == other
  {
    used := [tape[0]];
  }

  lemma ChangedReads(strat: nat, v: int, tape: Tape) returns (used: Tape)
    requires InInt64(v) && Changed(strat, v, tape).Some?
    ensures tape == used + Changed(strat, v, tape).value.1
    ensures forall other :: Changed(strat, v, used + other) == Some((Changed(strat, v, tape).value.0, other))
  {
    hide Below, TruncDiv;
    if strat == 4 && v != 0 && Unsigned64(v) < 0x1999_9999 {
      used := WordReads(tape);
    } else if 4 <= strat <= 6 {
      used := BelowReads(tape, 256);
    } else {
      used := [];
      forall other: Tape
        ensures used + other == other
      {
        NoWords(other);
      }
    }
  }

  // ---------------------------------------------------------------- kinds

  /** The decision is made by the words `used`, and by these alone. */
  ghost predicate DecidedBy(env: Env, kind: Kind, s: seq<Byte>, tape: Tape, used: Tape)
    requires 1 <= |s|
  {
    && Plan(env, kind, s, tape).Some?
    && tape == used + Plan(env, kind, s, tape).value.1
    && forall other :: Plan(env, kind, s, used + other) == Some((Plan(env, kind, s, tape).value.0, other))
  }

  /** A decision that looks at no word. */
  lemma Undrawn(env: Env, kind: Kind, s: seq<Byte>, tape: Tape, choice: Choice)
    requires 1 <= |s| && forall t :: Plan(env, kind, s, t) == Some((choice, t))
    ensures DecidedBy(env, kind, s, tape, [])
  {
    hide Plan;
    forall other: Tape
      ensures [] + other == other
    {
      NoWords(other);
    }
  }

  lemma FlipBitReads(env: Env, s: seq<Byte>, tape: Tape) returns (used: Tape)
    requires 1 <= |s| && Plan(env, FlipBit, s, tape).Some?
    ensures DecidedBy(env, FlipBit, s, tape, used)
  {
    hide Below, XorByte;
    used := TwoReads(tape, 8, |s|);
  }

  lemma Interesting8Reads(env: Env, s: seq<Byte>, tape: Tape) returns (used: Tape)
    requires 1 <= |s| && Plan(env, Interesting8, s, tape).Some?
    ensures DecidedBy(env, Interesting8, s, tape, used)
  {
    hide Below;
    used := TwoReads(tape, |INTERESTING_8|, |s|);
  }

  lemma Arith8Reads(env: Env, kind: Kind, s: seq<Byte>, tape: Tape) returns (used: Tape)
    requires (kind == Arith8 || kind == Arith8Sub) && 1 <= |s| && Plan(env, kind, s, tape).Some?
    ensures DecidedBy(env, kind, s, tape, used)
  {
    hide Below, AddByte;
    used := TwoReads(tape, ARITH_MAX, |s|);
  }

  lemma Rand8Reads(env: Env, s: seq<Byte>, tape: Tape) returns (used: Tape)
    requires 1 <= |s| && Plan(env, Rand8, s, tape).Some?
    ensures DecidedBy(env, Rand8, s, tape, used)
  {
    hide Below, XorByte;
    used := TwoReads(tape, |s|, 255);
  }

  lemma BumpReads(env: Env, kind: Kind, s: seq<Byte>, tape: Tape) returns (used: Tape)
    requires (kind == ByteAdd || kind == ByteSub) && 1 <= |s| && Plan(env, kind, s, tape).Some?
    ensures DecidedBy(env, kind, s, tape, used)
  {
    hide Below, AddByte;
    used := BelowReads(tape, |s|);
  }

  lemma Flip8Reads(env: Env, s: seq<Byte>, tape: Tape) returns (used: Tape)
    requires 1 <= |s| && Plan(env, Flip8, s, tape).Some?
    ensures DecidedBy(env, Flip8, s, tape, used)
  {
    hide Below, XorByte;
    used := BelowReads(tape, |s|);
  }

  lemma Interesting16Reads(env: Env, kind: Kind, s: seq<Byte>, tape: Tape) returns (used: Tape)
    requires (kind == Interesting16 || kind == Interesting16BE) && 1 <= |s| && Plan(env, kind, s, tape).Some?
    ensures DecidedBy(env, kind, s, tape, used)
  {
    hide Below, Bytes16, Swap16, Wrap;
    if |s| < 2 {
      Undrawn(env, kind, s, tape, Go(Nothing));
      used := [];
    } else {
      used := TwoReads(tape, |INTERESTING_16|, |s| - 1);
    }
  }

  lemma Interesting32Reads(env: Env, kind: Kind, s: seq<Byte>, tape: Tape) returns (used: Tape)
    requires (kind == Interesting32 || kind == Interesting32BE) && 1 <= |s| && Plan(env, kind, s, tape).Some?
    ensures DecidedBy(env, kind, s, tape, used)
  {
    hide Below, Bytes32, Swap32, Wrap;
    if |s| < 4 {
      Undrawn(env, kind, s, tape, Go(Nothing));
      used := [];
    } else {
      used := TwoReads(tape, |INTERESTING_32|, |s| - 3);
    }
  }

  lemma Arith16Reads(env: Env, kind: Kind, s: seq<Byte>, tape: Tape) returns (used: Tape)
    requires kind == Arith16 || kind == Arith16Sub || kind == Arith16BE || kind == Arith16BESub
    requires 1 <= |s| && Plan(env, kind, s, tape).Some?
    ensures DecidedBy(env, kind, s, tape, used)
  {
    hide Below, Added16, Added16Swapped;
    if |s| < 2 {
      Undrawn(env, kind, s, tape, Go(Nothing));
      used := [];
    } else {
      used := TwoReads(tape, |s| - 1, ARITH_MAX);
    }
  }

  lemma Arith32Reads(env: Env, kind: Kind, s: seq<Byte>, tape: Tape) returns (used: Tape)
    requires kind == Arith32 || kind == Arith32Sub || kind == Arith32BE || kind == Arith32BESub
    requires 1 <= |s| && Plan(env, kind, s, tape).Some?
    ensures DecidedBy(env, kind, s, tape, used)
  {
    hide Below, Sum32;
    if |s| < 4 {
      Undrawn(env, kind, s, tape, Go(Nothing));
      used := [];
    } else {
      used := TwoReads(tape, |s| - 3, ARITH_MAX);
    }
  }

  lemma CloneCopyReads(env: Env, s: seq<Byte>, tape: Tape) returns (used: Tape)
    requires 1 <= |s| && Plan(env, CloneCopy, s, tape).Some?
    ensures DecidedBy(env, CloneCopy, s, tape, used)
  {
    hide Below, ChooseBlockLen;
    if !(U32(|s| + HAVOC_BLK_XL) < env.maxLen) {
      Undrawn(env, CloneCopy, s, tape, if |s| < 8 then Go(Nothing) else Again);
      used := [];
    } else {
      var a := LengthReads(env, |s|, tape);
      var (v1, t1) := ChooseBlockLen(env, |s|, tape).value;
      var b := BelowReads(t1, |s| - v1 + 1);
      var (v2, t2) := Below(t1, |s| - v1 + 1).value;
      var c := BelowReads(t2, |s|);
      used := a + (b + c);
      forall other: Tape
        ensures used + other == a + (b + (c + other))
      {
        Regroup(a, b + c, other);
        Regroup(b, c, other);
      }
    }
  }

  lemma CloneFixedReads(env: Env, s: seq<Byte>, tape: Tape) returns (used: Tape)
    requires 1 <= |s| && Plan(env, CloneFixed, s, tape).Some?
    ensures DecidedBy(env, CloneFixed, s, tape, used)
  {
    hide Below, ChooseBlockLen, FillByte;
    if !(U32(|s| + HAVOC_BLK_XL) < env.maxLen) {
      Undrawn(env, CloneFixed, s, tape, if |s| < 8 then Go(Nothing) else Again);
      used := [];
    } else {
      var a := LengthReads(env, HAVOC_BLK_XL, tape);
      var (v1, t1) := ChooseBlockLen(env, HAVOC_BLK_XL, tape).value;
      var b := BelowReads(t1, |s|);
      var (v2, t2) := Below(t1, |s|).value;
      var c := FillReads(s, v2, t2);
      used := a + (b + c);
      forall other: Tape
        ensures used + other == a + (b + (c + other))
      {
        Regroup(a, b + c, other);
        Regroup(b, c, other);
      }
    }
  }

  lemma OverwriteCopyReads(env: Env, s: seq<Byte>, tape: Tape) returns (used: Tape)
    requires 1 <= |s| && Plan(env, OverwriteCopy, s, tape).Some?
    ensures DecidedBy(env, OverwriteCopy, s, tape, used)
  {
    hide Below, ChooseBlockLen;
    if |s| < 2 {
      Undrawn(env, OverwriteCopy, s, tape, Go(Nothing));
      used := [];
    } else {
      var a := LengthReads(env, |s| - 1, tape);
      var (v1, t1) := ChooseBlockLen(env, |s| - 1, tape).value;
      var b := BelowReads(t1, |s| - v1 + 1);
      var (v2, t2) := Below(t1, |s| - v1 + 1).value;
      var c := BelowReads(t2, |s| - v1 + 1);
      used := a + (b + c);
      forall other: Tape
        ensures used + other == a + (b + (c + other))
      {
        Regroup(a, b + c, other);
        Regroup(b, c, other);
      }
    }
  }

  lemma OverwriteFixedReads(env: Env, s: seq<Byte>, tape: Tape) returns (used: Tape)
    requires 1 <= |s| && Plan(env, OverwriteFixed, s, tape).Some?
    ensures DecidedBy(env, OverwriteFixed, s, tape, used)
  {
    hide Below, ChooseBlockLen, FillByte;
    if |s| < 2 {
      Undrawn(env, OverwriteFixed, s, tape, Go(Nothing));
      used := [];
    } else {
      var a := LengthReads(env, |s| - 1, tape);
      var (v1, t1) := ChooseBlockLen(env, |s| - 1, tape).value;
      var b := BelowReads(t1, |s| - v1 + 1);
      var (v2, t2) := Below(t1, |s| - v1 + 1).value;
      var c := FillReads(s, v2, t2);
      used := a + (b + c);
      forall other: Tape
        ensures used + other == a + (b + (c + other))
      {
        Regroup(a, b + c, other);
        Regroup(b, c, other);
      }
    }
  }

  lemma SwitchReads(env: Env, s: seq<Byte>, tape: Tape) returns (used: Tape)
    requires 1 <= |s| && Plan(env, SwitchBlocks, s, tape).Some?
    ensures DecidedBy(env, SwitchBlocks, s, tape, used)
  {
    hide Below, ChooseBlockLen, DrawOther;
    if |s| < 4 {
      Undrawn(env, SwitchBlocks, s, tape, Go(Nothing));
      used := [];
    } else {
      var a := BelowReads(tape, |s|);
      var (v1, t1) := Below(tape, |s|).value;
      var b := OtherReads(t1, |s|, v1);
      var (v2, t2) := DrawOther(t1, |s|, v1).value;
      var apart := if v1 < v2 then v2 - v1 else v1 - v2;
      var toEnd := if v1 < v2 then |s| - v2 else |s| - v1;
      var c := LengthReads(env, Min(apart, toEnd), t2);
      used := a + (b + c);
      forall other: Tape
        ensures used + other == a + (b + (c + other))
      {
        Regroup(a, b + c, other);
        Regroup(b, c, other);
      }
    }
  }

  lemma DelReads(env: Env, s: seq<Byte>, tape: Tape) returns (used: Tape)
    requires 1 <= |s| && Plan(env, Del, s, tape).Some?
    ensures DecidedBy(env, Del, s, tape, used)
  {
    hide Below, ChooseBlockLen;
    if |s| < 2 {
      Undrawn(env, Del, s, tape, Go(Nothing));
      used := [];
    } else {
      var a := LengthReads(env, |s| - 1, tape);
      var (v1, t1) := ChooseBlockLen(env, |s| - 1, tape).value;
      var b := BelowReads(t1, |s| - v1 + 1);
      used := a + b;
      forall other: Tape
        ensures used + other == a + (b + other)
      {
        Regroup(a, b, other);
      }
    }
  }

  lemma DelOneReads(env: Env, s: seq<Byte>, tape: Tape) returns (used: Tape)
    requires 1 <= |s| && Plan(env, DelOne, s, tape).Some?
    ensures DecidedBy(env, DelOne, s, tape, used)
  {
    hide Below;
    if |s| < 2 {
      Undrawn(env, DelOne, s, tape, Go(Nothing));
      used := [];
    } else {
      used := BelowReads(tape, |s|);
    }
  }

  lemma ShuffleReads(env: Env, s: seq<Byte>, tape: Tape) returns (used: Tape)
    requires 1 <= |s| && Plan(env, ShuffleBlock, s, tape).Some?
    ensures DecidedBy(env, ShuffleBlock, s, tape, used)
  {
    hide Below, ChooseBlockLen, DrawPartners;
    if |s| < 4 {
      Undrawn(env, ShuffleBlock, s, tape, Go(Nothing));
      used := [];
    } else {
      var a := LengthReads(env, |s| - 1, tape);
      var (v1, t1) := ChooseBlockLen(env, |s| - 1, tape).value;
      var b := BelowReads(t1, |s| - v1 + 1);
      var (v2, t2) := Below(t1, |s| - v1 + 1).value;
      var c := PartnersRead(t2, v1);
      used := a + (b + c);
      forall other: Tape
        ensures used + other == a + (b + (c + other))
      {
        Regroup(a, b + c, other);
        Regroup(b, c, other);
      }
    }
  }

  lemma InsertOneReads(env: Env, s: seq<Byte>, tape: Tape) returns (used: Tape)
    requires 1 <= |s| && Plan(env, InsertOne, s, tape).Some?
    ensures DecidedBy(env, InsertOne, s, tape, used)
  {
    hide Below, FillByte;
    if |s| < 2 {
      Undrawn(env, InsertOne, s, tape, Go(Nothing));
      used := [];
    } else if U32(|s| + 1) > env.maxLen {
      Undrawn(env, InsertOne, s, tape, Again);
      used := [];
    } else {
      var a := BelowReads(tape, |s|);
      var (v1, t1) := Below(tape, |s|).value;
      var b := FillReads(s, v1, t1);
      used := a + b;
      forall other: Tape
        ensures used + other == a + (b + other)
      {
        Regroup(a, b, other);
      }
    }
  }

  lemma NumberReads(env: Env, len: nat, found: Option<Number>, tape: Tape) returns (used: Tape)
    requires found.Some? ==> found.value.off < found.value.until <= len && -INT64_MAX <= found.value.value <= INT64_MAX
    requires found.Some? ==> found.value.until == found.value.off + 1 ==> -9 <= found.value.value <= 9
    requires PlanNumber(env, len, found, tape).Some?
    ensures tape == used + PlanNumber(env, len, found, tape).value.1
    ensures forall other ::
      PlanNumber(env, len, found, used + other) == Some((PlanNumber(env, len, found, tape).value.0, other))
  {
    hide Below, Changed, Adjusted, DropsDigit, Signed;
    if found.None? {
      used := [];
      forall other: Tape
        ensures used + other == other
      {
        NoWords(other);
      }
    } else {
      var v := found.value.value;
      var (strat, t1) := Below(tape, 8).value;
      ChangedFits(strat, v, t1);
      var a := BelowReads(tape, 8);
      var b := ChangedReads(strat, Adjusted(strat, v), t1);
      used := a + b;
      forall other: Tape
        ensures used + other == a + (b + other)
      {
        Regroup(a, b, other);
      }
    }
  }

  lemma AsciiNumReads(env: Env, s: seq<Byte>, tape: Tape) returns (used: Tape)
    requires 1 <= |s| && Plan(env, AsciiNum, s, tape).Some?
    ensures DecidedBy(env, AsciiNum, s, tape, used)
  {
    hide Below, PlanNumber, ReadNumber;
    if |s| < 4 {
      Undrawn(env, AsciiNum, s, tape, Go(Nothing));
      used := [];
    } else {
      var (start, t1) := Below(tape, |s|).value;
      NumberFits(s, start);
      var a := BelowReads(tape, |s|);
      var b := NumberReads(env, |s|, ReadNumber(s, start), t1);
      used := a + b;
      forall other: Tape
        ensures used + other == a + (b + other)
      {
        Regroup(a, b, other);
      }
    }
  }

  lemma InsertAsciiReads(env: Env, s: seq<Byte>, tape: Tape) returns (used: Tape)
    requires 1 <= |s| && Plan(env, InsertAsciiNum, s, tape).Some?
    ensures DecidedBy(env, InsertAsciiNum, s, tape, used)
  {
    hide Below, Digits, LastDigits;
    var (more, t1) := Below(tape, 8).value;
    var (pos, t2) := Below(t1, |s|).value;
    if |s| < U32(pos + 1 + more) {
      used := TwoReads(tape, 8, |s|);
    } else {
      used := InsertedReads(env, s, tape, more, t1, pos, t2);
    }
  }

  /** The decision to print, from its three draws. */
  lemma Inserted(env: Env, s: seq<Byte>, tape: Tape, more: nat, t1: Tape, pos: nat, t2: Tape)
    requires 1 <= |s| && Below(tape, 8) == Some((more, t1)) && Below(t1, |s|) == Some((pos, t2))
    requires U32(pos + 1 + more) <= |s|
    ensures Plan(env, InsertAsciiNum, s, tape) ==
      if t2 == [] then None
      else Some((Go(Store(pos, LastDigits(t2[0], Min(1 + more, |Digits(t2[0])|)))), t2[1..]))
  {
    hide Below, Digits, LastDigits, U32, PlanInsertAsciiNum;
    InsertedPlan(env, s, tape, more, t1, pos, t2);
  }

  lemma InsertedPlan(env: Env, s: seq<Byte>, tape: Tape, more: nat, t1: Tape, pos: nat, t2: Tape)
    requires 1 <= |s| && Below(tape, 8) == Some((more, t1)) && Below(t1, |s|) == Some((pos, t2))
    requires U32(pos + 1 + more) <= |s|
    ensures PlanInsertAsciiNum(env, s, tape) ==
      if t2 == [] then None
      else Some((Go(Store(pos, LastDigits(t2[0], Min(1 + more, |Digits(t2[0])|)))), t2[1..]))
  {
    hide Below, Digits, LastDigits, U32, Plan, OpOk, DecisionOk, Skip, Do;
  }

  lemma InsertedReads(env: Env, s: seq<Byte>, tape: Tape, more: nat, t1: Tape, pos: nat, t2: Tape)
      returns (used: Tape)
    requires 1 <= |s| && Below(tape, 8) == Some((more, t1)) && Below(t1, |s|) == Some((pos, t2))
    requires U32(pos + 1 + more) <= |s| && t2 != []
    ensures DecidedBy(env, InsertAsciiNum, s, tape, used)
  {
    hide Below, Digits, LastDigits, U32, Plan;
    Inserted(env, s, tape, more, t1, pos, t2);
    var a := TwoReads(tape, 8, |s|);
    var b := WordReads(t2);
    used := a + b;
    forall other: Tape
      ensures Plan(env, InsertAsciiNum, s, used + other) == Some((Plan(env, InsertAsciiNum, s, tape).value.0, other))
    {
      Regroup(a, b, other);
      var d := Below(used + other, 8);
      assert d.Some? && d.value.0 == more && Below(d.value.1, |s|) == Some((pos, b + other));
      Inserted(env, s, used + other, more, d.value.1, pos, b + other);
    }
  }

  lemma TokenOverReads(env: Env, tokens: seq<seq<Byte>>, s: seq<Byte>, tape: Tape) returns (used: Tape)
    requires tokens != [] && PlanExtraOverwrite(env, tokens, s, tape).Some?
    ensures tape == used + PlanExtraOverwrite(env, tokens, s, tape).value.1
    ensures var choice := PlanExtraOverwrite(env, tokens, s, tape).value.0;
      forall other :: PlanExtraOverwrite(env, tokens, s, used + other) == Some((choice, other))
  {
    hide Below;
    var token := tokens[Below(tape, |tokens|).value.0];
    if |token| > |s| {
      used := BelowReads(tape, |tokens|);
    } else {
      used := TwoReads(tape, |tokens|, |s| - |token| + 1);
    }
  }

  lemma TokenInReads(env: Env, tokens: seq<seq<Byte>>, s: seq<Byte>, tape: Tape) returns (used: Tape)
    requires env.Valid() ==> forall i | 0 <= i < |tokens| :: |tokens[i]| <= MAX_DICT_FILE
    requires tokens != [] && PlanExtraInsert(env, tokens, s, tape).Some?
    ensures tape == used + PlanExtraInsert(env, tokens, s, tape).value.1
    ensures forall other ::
      PlanExtraInsert(env, tokens, s, used + other) == Some((PlanExtraInsert(env, tokens, s, tape).value.0, other))
  {
    hide Below, U32;
    var (which, t1) := Below(tape, |tokens|).value;
    var token := tokens[which];
    if U32(|s| + |token|) > env.maxLen {
      used := BelowReads(tape, |tokens|);
      forall other: Tape
        ensures PlanExtraInsert(env, tokens, s, used + other) == Some((Again, other))
      {
        assert Below(used + other, |tokens|) == Some((which, other));
      }
    } else {
      used := TwoReads(tape, |tokens|, |s| + 1);
      var at := Below(t1, |s| + 1).value.0;
      forall other: Tape
        ensures PlanExtraInsert(env, tokens, s, used + other) == Some((Go(PushIn(at, token)), other))
      {
        var d := Below(used + other, |tokens|);
        assert d.Some? && d.value.0 == which;
      }
    }
  }

  lemma TokenReads(env: Env, kind: Kind, s: seq<Byte>, tape: Tape) returns (used: Tape)
    requires kind == ExtraOverwrite || kind == ExtraInsert || kind == AutoExtraOverwrite || kind == AutoExtraInsert
    requires 1 <= |s| && Plan(env, kind, s, tape).Some?
    ensures DecidedBy(env, kind, s, tape, used)
  {
    hide PlanExtraOverwrite, PlanExtraInsert;
    var tokens := if kind == ExtraOverwrite || kind == ExtraInsert then env.extras else env.autoExtras;
    if tokens == [] {
      NoTokens(env, kind, s, tape);
      used := [];
    } else if kind == ExtraOverwrite || kind == AutoExtraOverwrite {
      used := TokenOverReads(env, tokens, s, tape);
    } else {
      used := TokenInReads(env, tokens, s, tape);
    }
  }

  lemma NoTokens(env: Env, kind: Kind, s: seq<Byte>, tape: Tape)
    requires 1 <= |s| && (kind == ExtraOverwrite || kind == ExtraInsert ==> env.extras == [])
    requires kind == AutoExtraOverwrite || kind == AutoExtraInsert ==> env.autoExtras == []
    requires kind == ExtraOverwrite || kind == ExtraInsert || kind == AutoExtraOverwrite || kind == AutoExtraInsert
    ensures DecidedBy(env, kind, s, tape, [])
  {
    Undrawn(env, kind, s, tape, Again);
  }

  lemma SpliceOverReads(env: Env, s: seq<Byte>, tape: Tape) returns (used: Tape)
    requires 1 <= |s| && Plan(env, SpliceOverwrite, s, tape).Some?
    ensures DecidedBy(env, SpliceOverwrite, s, tape, used)
  {
    hide Below, ChooseBlockLen;
    if env.splice == [] {
      Undrawn(env, SpliceOverwrite, s, tape, Again);
      used := [];
    } else {
      var a := LengthReads(env, |env.splice| - 1, tape);
      var (v1, t1) := ChooseBlockLen(env, |env.splice| - 1, tape).value;
      var count := Min(v1, |s|);
      var b := BelowReads(t1, |env.splice| - count + 1);
      var (v2, t2) := Below(t1, |env.splice| - count + 1).value;
      var c := BelowReads(t2, |s| - count + 1);
      used := a + (b + c);
      forall other: Tape
        ensures used + other == a + (b + (c + other))
      {
        Regroup(a, b + c, other);
        Regroup(b, c, other);
      }
    }
  }

  lemma SpliceInReads(env: Env, s: seq<Byte>, tape: Tape) returns (used: Tape)
    requires 1 <= |s| && Plan(env, SpliceInsert, s, tape).Some?
    ensures DecidedBy(env, SpliceInsert, s, tape, used)
  {
    hide Below, ChooseBlockLen;
    if env.splice == [] || U32(|s| + HAVOC_BLK_XL) > env.maxLen {
      Undrawn(env, SpliceInsert, s, tape, Again);
      used := [];
    } else {
      var a := LengthReads(env, |env.splice|, tape);
      var (v1, t1) := ChooseBlockLen(env, |env.splice|, tape).value;
      var b := BelowReads(t1, |env.splice| - v1 + 1);
      var (v2, t2) := Below(t1, |env.splice| - v1 + 1).value;
      var c := BelowReads(t2, |s| + 1);
      used := a + (b + c);
      forall other: Tape
        ensures used + other == a + (b + (c + other))
      {
        Regroup(a, b + c, other);
        Regroup(b, c, other);
      }
    }
  }

  /** Every kind decides by the words it uses up. */
  lemma KindReads(env: Env, kind: Kind, s: seq<Byte>, tape: Tape) returns (used: Tape)
    requires 1 <= |s| && Plan(env, kind, s, tape).Some?
    ensures DecidedBy(env, kind, s, tape, used)
  {
    hide Plan, DecidedBy;
    match kind
    case FlipBit => used := FlipBitReads(env, s, tape);
    case Interesting8 => used := Interesting8Reads(env, s, tape);
    case Interesting16 => used := Interesting16Reads(env, kind, s, tape);
    case Interesting16BE => used := Interesting16Reads(env, kind, s, tape);
    case Interesting32 => used := Interesting32Reads(env, kind, s, tape);
    case Interesting32BE => used := Interesting32Reads(env, kind, s, tape);
    case Arith8Sub => used := Arith8Reads(env, kind, s, tape);
    case Arith8 => used := Arith8Reads(env, kind, s, tape);
    case Arith16Sub => used := Arith16Reads(env, kind, s, tape);
    case Arith16BESub => used := Arith16Reads(env, kind, s, tape);
    case Arith16 => used := Arith16Reads(env, kind, s, tape);
    case Arith16BE => used := Arith16Reads(env, kind, s, tape);
    case Arith32Sub => used := Arith32Reads(env, kind, s, tape);
    case Arith32BESub => used := Arith32Reads(env, kind, s, tape);
    case Arith32 => used := Arith32Reads(env, kind, s, tape);
    case Arith32BE => used := Arith32Reads(env, kind, s, tape);
    case Rand8 => used := Rand8Reads(env, s, tape);
    case CloneCopy => used := CloneCopyReads(env, s, tape);
    case CloneFixed => used := CloneFixedReads(env, s, tape);
    case OverwriteCopy => used := OverwriteCopyReads(env, s, tape);
    case OverwriteFixed => used := OverwriteFixedReads(env, s, tape);
    case ByteAdd => used := BumpReads(env, kind, s, tape);
    case ByteSub => used := BumpReads(env, kind, s, tape);
    case Flip8 => used := Flip8Reads(env, s, tape);
    case SwitchBlocks => used := SwitchReads(env, s, tape);
    case Del => used := DelReads(env, s, tape);
    case ShuffleBlock => used := ShuffleReads(env, s, tape);
    case DelOne => used := DelOneReads(env, s, tape);
    case InsertOne => used := InsertOneReads(env, s, tape);
    case AsciiNum => used := AsciiNumReads(env, s, tape);
    case InsertAsciiNum => used := InsertAsciiReads(env, s, tape);
    case ExtraOverwrite => used := TokenReads(env, kind, s, tape);
    case ExtraInsert => used := TokenReads(env, kind, s, tape);
    case AutoExtraOverwrite => used := TokenReads(env, kind, s, tape);
    case AutoExtraInsert => used := TokenReads(env, kind, s, tape);
    case SpliceOverwrite => used := SpliceOverReads(env, s, tape);
    case SpliceInsert => used := SpliceInReads(env, s, tape);
  }

  // ---------------------------------------------------------------- steps and calls

  lemma AttemptReads(env: Env, s: seq<Byte>, tape: Tape) returns (used: Tape)
    requires |env.table| == STRATEGY_SIZE && 1 <= |s| && Attempt(env, s, tape).Some?
    ensures tape == used + Attempt(env, s, tape).value.1
    ensures forall other :: Attempt(env, s, used + other) == Some((Attempt(env, s, tape).value.0, other))
  {
    hide Plan, Below;
    var (which, t1) := Below(tape, STRATEGY_SIZE).value;
    var a := BelowReads(tape, STRATEGY_SIZE);
    var b := KindReads(env, env.table[which], s, t1);
    used := a + b;
    forall other: Tape
      ensures used + other == a + (b + other)
    {
      Regroup(a, b, other);
    }
  }

  lemma {:induction false} StepReads(env: Env, s: seq<Byte>, tape: Tape) returns (used: Tape)
    requires env.Valid() && 1 <= |s| <= env.maxLen && StepOf(env, s, tape).Some?
    ensures tape == used + StepOf(env, s, tape).value.1
    ensures forall other :: StepOf(env, s, used + other) == Some((StepOf(env, s, tape).value.0, other))
    decreases |tape|
  {
    hide StepOf, Attempt, OpOk;
    AttemptIs(env, s, tape);
    var d := Attempt(env, s, tape);
    var a := AttemptReads(env, s, tape);
    var b: Tape := [];
    if d.value.0.Again? {
      b := StepReads(env, s, d.value.1);
    }
    used := a + b;
    forall other: Tape
      ensures StepOf(env, s, used + other) == Some((StepOf(env, s, tape).value.0, other))
    {
      AttemptIs(env, s, used + other);
      Regroup(a, b, other);
      NoWords(other);
    }
  }

  /**
   A call looks at the random words it uses up and at none behind them: with any other words behind them it
   leaves the same buffer, by the same edits, and those words.
   */
  lemma {:induction false} CallReads(env: Env, s: seq<Byte>, steps: nat, tape: Tape) returns (used: Tape)
    requires env.Valid() && 1 <= |s| <= env.maxLen && Mutated(env, s, steps, tape).Some?
    ensures var (t, rest, edits) := Mutated(env, s, steps, tape).value;
      && tape == used + rest
      && forall other :: Mutated(env, s, steps, used + other) == Some((t, other, edits))
    decreases steps
  {
    hide StepOf, Mutated, After, OpOk, EditOf;
    if steps == 0 {
      used := [];
      MutatedNone(env, s, tape);
      forall other: Tape
        ensures Mutated(env, s, 0, used + other) == Some((s, other, []))
      {
        MutatedNone(env, s, other);
        NoWords(other);
      }
    } else if StepOf(env, s, tape).None? {
      NoneFirst(env, s, steps, tape);
    } else {
      var (op, mid) := StepOf(env, s, tape).value;
      MutatedOne(env, s, steps, tape, op, mid);
      var a := StepReads(env, s, tape);
      var b := CallReads(env, After(env, s, op), steps - 1, mid);
      used := a + b;
      var (t, rest, edits) := Mutated(env, s, steps, tape).value;
      forall other: Tape
        ensures Mutated(env, s, steps, used + other) == Some((t, other, edits))
      {
        Regroup(a, b, other);
        MutatedOne(env, s, steps, used + other, op, b + other);
      }
    }
  }
}
