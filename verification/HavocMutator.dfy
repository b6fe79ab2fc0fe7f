/** `afl_mutate`: the loop over the steps, and its refinement of a fold of pure edits. */
module HavocMutator {
  import opened Bytes
  import opened Wrappers
  import opened Decimal
  import opened Rng
  import opened HavocEdits
  import opened HavocShuffle
  import opened HavocNumber
  import opened HavocPlan
  import opened HavocSteps
  import opened HavocMemory

  // ---------------------------------------------------------------- the loops that look for a number

  /** The two scans of MUT_ASCIINUM: from `start` to the end, then from the beginning up to `start`. */
  method ScanForDigit(buf: array<Byte>, len: nat, start: nat) returns (off: Option<nat>)
    requires start < len <= buf.Length
    ensures off == FindNumber(buf[..len], start)
  {
    ghost var s := buf[..len];
    var off2, cnt := start, 0;
    while off2 + cnt < len && !IsDigit(buf[off2 + cnt])
      invariant off2 + cnt <= len && off2 == start
      invariant FirstDigit(s, start) == FirstDigit(s, start + cnt)
    {
      assert s[off2 + cnt] == buf[off2 + cnt];
      cnt := cnt + 1;
    }
    if off2 + cnt < len {
      assert s[off2 + cnt] == buf[off2 + cnt];
      return Some(off2 + cnt);
    }
    off2 := 0;
    cnt := 0;
    ghost var head := s[..start];
    while cnt < start && !IsDigit(buf[off2 + cnt])
      invariant cnt <= start && off2 == 0
      invariant FirstDigit(head, 0) == FirstDigit(head, cnt)
    {
      assert head[cnt] == buf[cnt];
      cnt := cnt + 1;
    }
    if cnt == start {
      return None;
    }
    assert head[cnt] == buf[cnt];
    return Some(cnt);
  }

  /** The loop over the digits behind the first one, and the one that adds them up. */
  method ReadDigits(buf: array<Byte>, len: nat, off: nat) returns (until: nat, val: nat)
    requires off < len <= buf.Length && IsDigit(buf[off])
    ensures (val, until) == ReadOn(buf[..len], off + 1, DigitsEnd(buf[..len], off + 1), Digit(buf[off]))
  {
    ghost var s := buf[..len];
    var off2 := off + 1;
    while off2 < len && IsDigit(buf[off2])
      invariant off + 1 <= off2 <= len
      invariant DigitsEnd(s, off + 1) == DigitsEnd(s, off2)
    {
      assert s[off2] == buf[off2];
      off2 := off2 + 1;
    }
    assert off2 < len ==> s[off2] == buf[off2];
    val := Digit(buf[off]);
    var i := off + 1;
    while i < off2
      invariant off + 1 <= i <= off2 == DigitsEnd(s, off + 1)
      invariant ReadOn(s, i, off2, val) == ReadOn(s, off + 1, off2, Digit(buf[off]))
    {
      assert s[i] == buf[i];
      var digit := Digit(buf[i]);
      if val > INT64_MAX / 10 || val * 10 > INT64_MAX - digit {
        until := i;
        return;
      }
      val := val * 10 + digit;
      i := i + 1;
    }
    until := off2;
  }

  /** Finding and reading together. */
  method ScanNumber(buf: array<Byte>, len: nat, start: nat) returns (found: Option<Number>)
    requires start < len <= buf.Length
    ensures found == ReadNumber(buf[..len], start)
  {
    hide FindNumber, ReadOn, DigitsEnd;
    var off := ScanForDigit(buf, len, start);
    if off.None? {
      return None;
    }
    assert buf[..len][off.value] == buf[off.value];
    var until, val := ReadDigits(buf, len, off.value);
    assert off.value > 0 ==> buf[..len][off.value - 1] == buf[off.value - 1];
    found := Some(Number(off.value, until, Negated(off.value > 0 && buf[off.value - 1] == MINUS, val)));
  }

  /** MUT_ASCIINUM up to the change of the buffer. */
  method DecideAsciiNum(env: Env, buf: array<Byte>, len: nat, tape: Tape) returns (d: Decision)
    requires 1 <= len <= buf.Length
    ensures d == PlanAsciiNum(env, buf[..len], tape)
  {
    hide ReadNumber, PlanNumber, Below;
    if len < 4 {
      return Skip(tape);
    }
    var draw :- RandBelow(tape, len);
    var found := ScanNumber(buf, len, draw.0);
    NumberFits(buf[..len], draw.0);
    d := PlanNumber(env, len, found, draw.1);
  }

  method Decide(env: Env, kind: Kind, buf: array<Byte>, len: nat, tape: Tape) returns (d: Decision)
    requires 1 <= len <= buf.Length
    ensures d == Plan(env, kind, buf[..len], tape)
  {
    if kind == AsciiNum {
      d := DecideAsciiNum(env, buf, len, tape);
    } else {
      d := Plan(env, kind, buf[..len], tape);
    }
  }

  // ---------------------------------------------------------------- one step

  method Execute(env: Env, buf: array<Byte>, tmp: array<Byte>, len: nat, op: Op) returns (now: nat)
    requires buf != tmp && 1 <= len <= env.maxLen <= buf.Length && env.maxLen <= tmp.Length && OpOk(env, len, op)
    modifies buf, tmp
    ensures 1 <= now <= env.maxLen && buf[..now] == After(env, old(buf[..len]), op)
  {
    if op.CloneBlock? || op.CloneByte? || op.Cut? || op.Renumber? || op.PushIn? || op.SpliceIn? {
      now := Resize(env, buf, tmp, len, op);
    } else {
      Rearrange(env, buf, tmp, len, op);
      now := len;
    }
  }

  /** The operations that keep the length. */
  method Rearrange(env: Env, buf: array<Byte>, tmp: array<Byte>, len: nat, op: Op)
    requires buf != tmp && 1 <= len <= env.maxLen <= buf.Length && env.maxLen <= tmp.Length && OpOk(env, len, op)
    requires op.Nothing? || op.Store? || op.MoveBlock? || op.FillBlock? || op.Switch? || op.Shuffle?
    modifies buf, tmp
    ensures buf[..len] == After(env, old(buf[..len]), op)
  {
    hide Apply, Fits, Origins, Partners;
    ghost var s := buf[..len];
    OpIsLegal(env, s, op);
    match op
    case Nothing =>
      AppliedKeep(s);
    case Store(at, data) =>
      DoStore(buf, len, at, data);
    case MoveBlock(from, to, count) =>
      assert s[from..from + count] == buf[from..from + count];
      DoMoveBlock(buf, len, from, to, count);
    case FillBlock(to, item, count) =>
      DoFillBlock(buf, len, to, item, count);
    case Switch(from, to, count) =>
      DoSwitch(buf, tmp, len, from, to, count);
    case Shuffle(at, partners) =>
      DoShuffle(buf, len, at, partners);
  }

  /** The operations that change the length. */
  method Resize(env: Env, buf: array<Byte>, tmp: array<Byte>, len: nat, op: Op) returns (now: nat)
    requires buf != tmp && 1 <= len <= env.maxLen <= buf.Length && env.maxLen <= tmp.Length && OpOk(env, len, op)
    requires op.CloneBlock? || op.CloneByte? || op.Cut? || op.Renumber? || op.PushIn? || op.SpliceIn?
    modifies buf, tmp
    ensures 1 <= now <= env.maxLen && buf[..now] == After(env, old(buf[..len]), op)
  {
    hide Apply, Fits;
    ghost var s := buf[..len];
    OpIsLegal(env, s, op);
    match op
    case CloneBlock(from, to, count) =>
      assert s[from..from + count] == buf[from..from + count];
      now := DoCloneBlock(buf, tmp, len, from, to, count);
    case CloneByte(to, item, count) =>
      now := DoCloneByte(buf, tmp, len, to, item, count);
    case Cut(from, count) =>
      now := DoCut(buf, len, from, count);
    case Renumber(off, until, digits) =>
      now := DoReplace(buf, tmp, len, off, until, digits);
    case PushIn(at, data) =>
      now := DoPushIn(buf, len, at, data);
    case SpliceIn(from, to, count) =>
      now := DoReplace(buf, tmp, len, to, to, env.splice[from..from + count]);
      InsertIsReplace(s, to, env.splice[from..from + count]);
  }

  lemma AppliedKeep(s: seq<Byte>)
    ensures Fits(Keep, |s|) && Apply(Keep, s) == s
  {
  }

  /** One step: draw a kind until one does not ask for another, then edit. */
  method Step(env: Env, buf: array<Byte>, tmp: array<Byte>, len: nat, tape: Tape) returns (r: Option<(nat, Tape)>)
    requires env.Valid() && buf != tmp && 1 <= len <= env.maxLen <= buf.Length && env.maxLen <= tmp.Length
    modifies buf, tmp
    ensures r.None? <==> StepOf(env, old(buf[..len]), tape).None?
    ensures r.Some? ==>
      var (op, rest) := StepOf(env, old(buf[..len]), tape).value;
      r.value.1 == rest && 1 <= r.value.0 <= env.maxLen && buf[..r.value.0] == After(env, old(buf[..len]), op)
  {
    hide Plan, Below, After, OpOk;
    ghost var s := buf[..len];
    var t := tape;
    while true
      invariant buf[..len] == s && StepOf(env, s, t) == StepOf(env, s, tape)
      decreases |t|
    {
      var which :- RandBelow(t, STRATEGY_SIZE);
      var decision :- Decide(env, env.table[which.0], buf, len, which.1);
      match decision.0
      case Again =>
        t := decision.1;
      case Go(op) =>
        var now := Execute(env, buf, tmp, len, op);
        return Some((now, decision.1));
    }
  }

  // ---------------------------------------------------------------- all steps

  /** The part of a result that the caller sees. */
  ghost predicate SameEnd(a: Option<(seq<Byte>, Tape, seq<Edit>)>, b: Option<(seq<Byte>, Tape, seq<Edit>)>) {
    a.None? == b.None? && (a.Some? ==> a.value.0 == b.value.0 && a.value.1 == b.value.1)
  }

  lemma MutatedStep(env: Env, s: seq<Byte>, steps: nat, tape: Tape)
    requires env.Valid() && 1 <= |s| <= env.maxLen && 0 < steps
    ensures StepOf(env, s, tape).None? ==> Mutated(env, s, steps, tape).None?
    ensures StepOf(env, s, tape).Some? ==>
      var (op, rest) := StepOf(env, s, tape).value;
      1 <= |After(env, s, op)| <= env.maxLen
      && SameEnd(Mutated(env, s, steps, tape), Mutated(env, After(env, s, op), steps - 1, rest))
  {
    hide StepOf, Apply, OpOk, EditOf, Fits;
    if StepOf(env, s, tape).Some? {
      OpIsLegal(env, s, StepOf(env, s, tape).value.0);
    }
  }

  /** The static scratch buffer of `afl_mutate`. */
  class Mutator {
    var tmp: array<Byte>

    constructor ()
      ensures tmp.Length == 0 && fresh(tmp)
    {
      tmp := new Byte[0];
    }

    /**
     `afl_mutate`: the new length and the rest of the tape, or None when the tape ran out.  `granted` is
     what the system answers when a larger scratch buffer is asked for.
     */
    method AflMutate(env: Env, buf: array<Byte>, len: nat, steps: nat, tape: Tape, granted: bool)
      returns (r: Option<(nat, Tape)>)
      requires env.Valid() && buf != tmp && len <= env.maxLen <= buf.Length
      modifies this, tmp, buf
      ensures len == 0 || (old(tmp.Length) < env.maxLen && !granted) ==> r == Some((0, tape)) && buf[..] == old(buf[..])
      ensures len > 0 && (old(tmp.Length) >= env.maxLen || granted) ==>
        var all := Mutated(env, old(buf[..len]), steps, tape);
        if all.None? then r.None?
        else
          && r == Some((|all.value.0|, all.value.1)) && |all.value.0| <= env.maxLen
          && buf[..|all.value.0|] == all.value.0
      ensures len > 0 && (old(tmp.Length) >= env.maxLen || granted) ==>
        if r.Some? then
          && r.value.0 <= env.maxLen
          && exists edits :: Runs(env, old(buf[..len]), steps, tape, buf[..r.value.0], r.value.1, edits)
        else forall t, rest, edits :: !Runs(env, old(buf[..len]), steps, tape, t, rest, edits)
      ensures tmp == old(tmp) || fresh(tmp)
    {
      hide StepOf, Mutated, After, OpOk, Runs;
      if len == 0 {
        return Some((0, tape));
      }
      if env.maxLen > tmp.Length {
        if !granted {
          return Some((0, tape));
        }
        tmp := new Byte[env.maxLen];
      }
      ghost var s := buf[..len];
      MutatedExactly(env, s, steps, tape);
      var n, t := len, tape;
      for step := 0 to steps
        invariant 1 <= n <= env.maxLen && buf != tmp && env.maxLen <= tmp.Length && (tmp == old(tmp) || fresh(tmp))
        invariant SameEnd(Mutated(env, s, steps, tape), Mutated(env, buf[..n], steps - step, t))
      {
        MutatedStep(env, buf[..n], steps - step, t);
        var after :- Step(env, buf, tmp, n, t);
        n, t := after.0, after.1;
      }
      MutatedNone(env, buf[..n], t);
      r := Some((n, t));
    }
  }

  /**
   For every start buffer, number of steps and tape: what `afl_mutate` leaves is a sequence of edits
   applied to the start, each inside the buffer it finds, none leaving it empty or longer than allowed.
   */
  lemma {:induction false} MutatedIsEdits(env: Env, s: seq<Byte>, steps: nat, tape: Tape)
    requires env.Valid() && 1 <= |s| <= env.maxLen && Mutated(env, s, steps, tape).Some?
    ensures var (final, rest, edits) := Mutated(env, s, steps, tape).value;
      && |edits| == steps && Legal(edits, s, env.maxLen) && final == ApplyAll(edits, s, env.maxLen)
      && 1 <= |final| <= env.maxLen && |rest| + steps <= |tape|
    decreases steps
  {
    hide StepOf, Apply, OpOk, EditOf, Fits;
    if steps > 0 {
      var (op, t1) := StepOf(env, s, tape).value;
      OpIsLegal(env, s, op);
      var e := EditOf(env, s, op);
      MutatedIsEdits(env, Apply(e, s), steps - 1, t1);
      var edits := Mutated(env, s, steps, tape).value.2;
      assert edits[1..] == Mutated(env, Apply(e, s), steps - 1, t1).value.2;
    }
  }
}
