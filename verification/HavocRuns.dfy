/** What whole calls of `afl_mutate` can make of a buffer: exactly what the laws of the kinds in the table allow. */
module HavocRuns {
  import opened Bytes
  import opened Wrappers
  import opened Rng
  import opened HavocEdits
  import opened HavocPlan
  import opened HavocSteps
  import opened HavocLaws
  import opened HavocDraws
  import opened HavocKinds
  import opened HavocReach

  /** What a step can make of a buffer: what some kind of the table can. */
  ghost predicate StepLaw(env: Env, s: seq<Byte>, t: seq<Byte>) {
    exists i: nat | i < |env.table| :: KindLaw(env, env.table[i], s, t)
  }

  /** The try that ends a step leads to what the step makes of the buffer. */
  lemma LastTry(env: Env, s: seq<Byte>, tape: Tape, op: Op, e: Edit, t: seq<Byte>, rest: Tape)
      returns (which: nat, from: Tape)
    requires StepTo(env, s, tape, op, e, t, rest)
    ensures which < |env.table| && Leads(env, s, Plan(env, env.table[which], s, from), t)
  {
    hide Plan, Below, After, OpOk, EditOf;
    var tapes :|
      Retries(env, s, tapes) && tapes[0] == tape && Attempt(env, s, tapes[|tapes| - 1]) == Some((Go(op), rest));
    var draw := Below(tapes[|tapes| - 1], STRATEGY_SIZE).value;
    which, from := draw.0, draw.1;
  }

  lemma StepObeys(env: Env, s: seq<Byte>, tape: Tape, op: Op, e: Edit, t: seq<Byte>, rest: Tape)
    requires env.Valid() && StepTo(env, s, tape, op, e, t, rest)
    ensures StepLaw(env, s, t)
  {
    hide Plan, KindLaw, Leads;
    var which, from := LastTry(env, s, tape, op, e, t, rest);
    KindObeys(env, env.table[which], s, from, t);
  }

  lemma StepReached(env: Env, s: seq<Byte>, t: seq<Byte>, rest: Tape) returns (tape: Tape, op: Op, e: Edit)
    requires env.Valid() && 1 <= |s| <= env.maxLen && StepLaw(env, s, t)
    ensures StepTo(env, s, tape, op, e, t, rest) && 1 <= |t| <= env.maxLen
  {
    hide Plan, KindLaw, Below, After, OpOk, EditOf, Settles;
    var i: nat :| i < |env.table| && KindLaw(env, env.table[i], s, t);
    var from := KindReached(env, env.table[i], s, t, rest);
    tape := Words(STRATEGY_SIZE, i) + from;
    DrawAny(STRATEGY_SIZE, i, from);
    op := Plan(env, env.table[i], s, from).value.0.op;
    e := EditOf(env, s, op);
    SettlesNow(env, s, tape);
    AfterFits(env, s, op);
  }

  lemma AfterFits(env: Env, s: seq<Byte>, op: Op)
    requires OpOk(env, |s|, op) && 1 <= |s| <= env.maxLen
    ensures 1 <= |After(env, s, op)| <= env.maxLen
  {
    hide OpOk, EditOf, Apply;
    OpIsLegal(env, s, op);
  }

  /** From each buffer to the next, some kind of the table leads. */
  ghost predicate IsPath(env: Env, bufs: seq<seq<Byte>>) {
    forall i | 0 <= i < |bufs| - 1 :: StepLaw(env, bufs[i], bufs[i + 1])
  }

  ghost predicate PathTo(env: Env, s: seq<Byte>, steps: nat, t: seq<Byte>, bufs: seq<seq<Byte>>) {
    |bufs| == steps + 1 && bufs[0] == s && bufs[steps] == t && IsPath(env, bufs)
  }

  lemma RunIsPath(env: Env, s: seq<Byte>, steps: nat, tape: Tape, t: seq<Byte>, rest: Tape, r: Run)
    requires env.Valid() && RunTo(env, s, steps, tape, t, rest, r)
    ensures PathTo(env, s, steps, t, r.bufs)
  {
    hide StepTo, StepLaw;
    forall i | 0 <= i < steps
      ensures StepLaw(env, r.bufs[i], r.bufs[i + 1])
    {
      StepObeys(env, r.bufs[i], r.tapes[i], r.ops[i], r.edits[i], r.bufs[i + 1], r.tapes[i + 1]);
    }
  }

  lemma {:induction false} PathIsRun(env: Env, s: seq<Byte>, steps: nat, t: seq<Byte>, bufs: seq<seq<Byte>>, rest: Tape)
      returns (tape: Tape, r: Run)
    requires env.Valid() && 1 <= |s| <= env.maxLen && PathTo(env, s, steps, t, bufs)
    ensures RunTo(env, s, steps, tape, t, rest, r)
    decreases steps
  {
    hide StepTo, StepLaw, RunTo;
    if steps == 0 {
      tape, r := rest, Run([s], [rest], [], []);
      RunStart(env, s, rest, s, rest, r);
    } else {
      assert StepLaw(env, bufs[0], bufs[1]);
      var _, _, _ := StepReached(env, s, bufs[1], rest);
      PathBehind(env, s, steps, t, bufs);
      var mid, q := PathIsRun(env, bufs[1], steps - 1, t, bufs[1..], rest);
      var op: Op, e: Edit;
      tape, op, e := StepReached(env, s, bufs[1], mid);
      RunAhead(env, bufs[1], steps - 1, mid, t, rest, q, s, tape, op, e);
      r := Ahead(s, tape, op, e, q);
    }
  }

  lemma PathBehind(env: Env, s: seq<Byte>, steps: nat, t: seq<Byte>, bufs: seq<seq<Byte>>)
    requires 0 < steps && PathTo(env, s, steps, t, bufs)
    ensures PathTo(env, bufs[1], steps - 1, t, bufs[1..])
  {
    hide StepLaw;
    forall i | 0 <= i < steps - 1
      ensures StepLaw(env, bufs[1..][i], bufs[1..][i + 1])
    {
      assert StepLaw(env, bufs[i + 1], bufs[i + 2]);
    }
  }

  /**
   For every buffer, number of steps and result: some random words make `afl_mutate` turn the one into the
   other exactly when as many laws of kinds in the table lead from one to the other.
   */
  lemma CallsExactly(env: Env, s: seq<Byte>, steps: nat, t: seq<Byte>)
    requires env.Valid() && 1 <= |s| <= env.maxLen
    ensures (exists tape, rest, edits :: Mutated(env, s, steps, tape) == Some((t, rest, edits)))
        <==> (exists bufs :: PathTo(env, s, steps, t, bufs))
  {
    hide Mutated, RunTo, PathTo;
    if tape, rest, edits :| Mutated(env, s, steps, tape) == Some((t, rest, edits)) {
      var r := RunFound(env, s, steps, tape);
      RunIsPath(env, s, steps, tape, t, rest, r);
    }
    if bufs :| PathTo(env, s, steps, t, bufs) {
      var tape, r := PathIsRun(env, s, steps, t, bufs, []);
      RunKnown(env, s, steps, tape, t, [], r);
    }
  }

  /** With one kind in the table, one step does what that kind does: all that its law allows, and nothing else. */
  lemma OneKindExactly(env: Env, kind: Kind, s: seq<Byte>, t: seq<Byte>)
    requires env.Valid() && 1 <= |s| <= env.maxLen && forall i | 0 <= i < |env.table| :: env.table[i] == kind
    ensures (exists tape, rest, edits :: Mutated(env, s, 1, tape) == Some((t, rest, edits)))
        <==> KindLaw(env, kind, s, t)
  {
    hide Mutated, KindLaw;
    CallsExactly(env, s, 1, t);
    if KindLaw(env, kind, s, t) {
      assert KindLaw(env, env.table[0], s, t);
      assert StepLaw(env, s, t);
      var bufs := [s, t];
      assert PathTo(env, s, 1, t, bufs);
    }
    if bufs :| PathTo(env, s, 1, t, bufs) {
      assert StepLaw(env, bufs[0], bufs[1]);
    }
  }

  /** With a byte kind alone in the table, every step that ends has changed one byte, in the way of the kind. */
  lemma OneByteStep(env: Env, kind: Kind, s: seq<Byte>, tape: Tape) returns (off: nat)
    requires env.Valid() && 1 <= |s| <= env.maxLen && forall i | 0 <= i < |env.table| :: env.table[i] == kind
    requires IsByteKind(kind) && Mutated(env, s, 1, tape).Some?
    ensures var t := Mutated(env, s, 1, tape).value.0;
      && off < |s| && |t| == |s| && ByteChange(kind, s[off], t[off])
      && forall i | 0 <= i < |s| && i != off :: t[i] == s[i]
  {
    hide Mutated, ByteChange;
    var (t, rest, edits) := Mutated(env, s, 1, tape).value;
    OneKindExactly(env, kind, s, t);
    off :| ByteAt(kind, s, t, off);
  }
}
