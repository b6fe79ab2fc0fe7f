/** What the steps of `afl_mutate` are: tries until a kind settles, and runs of such steps. */
module HavocSteps {
  import opened Bytes
  import opened Wrappers
  import opened Rng
  import opened HavocEdits
  import opened HavocPlan

  // ---------------------------------------------------------------- one step

  /** What the buffer holds after an operation. */
  ghost function After(env: Env, s: seq<Byte>, op: Op): seq<Byte>
    requires OpOk(env, |s|, op) && 1 <= |s| <= env.maxLen
  {
    OpIsLegal(env, s, op);
    Apply(EditOf(env, s, op), s)
  }

  /** One try of a step: a kind is drawn from the table, and decides. */
  function Attempt(env: Env, s: seq<Byte>, tape: Tape): Decision
    requires |env.table| == STRATEGY_SIZE && 1 <= |s|
  {
    var (which, t1) :- Below(tape, STRATEGY_SIZE);
    Plan(env, env.table[which], s, t1)
  }

  /** From each tape of the list to the next, a try asks for another kind. */
  ghost predicate Retries(env: Env, s: seq<Byte>, tapes: seq<Tape>)
    requires |env.table| == STRATEGY_SIZE && 1 <= |s|
  {
    tapes != [] && forall i | 0 <= i < |tapes| - 1 :: Attempt(env, s, tapes[i]) == Some((Again, tapes[i + 1]))
  }

  /** After some tries that ask for another kind, one gives `last`. */
  ghost predicate Settles(env: Env, s: seq<Byte>, tape: Tape, last: Decision)
    requires |env.table| == STRATEGY_SIZE && 1 <= |s|
  {
    exists tapes :: Retries(env, s, tapes) && tapes[0] == tape && Attempt(env, s, tapes[|tapes| - 1]) == last
  }

  lemma SettlesNow(env: Env, s: seq<Byte>, tape: Tape)
    requires |env.table| == STRATEGY_SIZE && 1 <= |s|
    ensures Settles(env, s, tape, Attempt(env, s, tape))
  {
    assert Retries(env, s, [tape]);
  }

  lemma SettlesLater(env: Env, s: seq<Byte>, tape: Tape, next: Tape, last: Decision)
    requires |env.table| == STRATEGY_SIZE && 1 <= |s|
    requires Attempt(env, s, tape) == Some((Again, next)) && (last.Some? ==> last.value.0.Go?)
    ensures Settles(env, s, tape, last) <==> Settles(env, s, next, last)
  {
    hide Attempt;
    if Settles(env, s, next, last) {
      var tapes :| Retries(env, s, tapes) && tapes[0] == next && Attempt(env, s, tapes[|tapes| - 1]) == last;
      var more := [tape] + tapes;
      assert Retries(env, s, more);
      assert more[0] == tape && more[|more| - 1] == tapes[|tapes| - 1];
    }
    if Settles(env, s, tape, last) {
      var tapes :| Retries(env, s, tapes) && tapes[0] == tape && Attempt(env, s, tapes[|tapes| - 1]) == last;
      var fewer := tapes[1..];
      assert tapes[1] == next;
      assert forall i | 0 <= i < |fewer| :: fewer[i] == tapes[i + 1];
      assert Retries(env, s, fewer);
    }
  }

  lemma SettledOnce(env: Env, s: seq<Byte>, tape: Tape, last: Decision)
    requires |env.table| == STRATEGY_SIZE && 1 <= |s|
    requires Settles(env, s, tape, last) && last != Attempt(env, s, tape)
    ensures Attempt(env, s, tape).Some? && Attempt(env, s, tape).value.0.Again?
  {
    hide Attempt;
    var tapes :| Retries(env, s, tapes) && tapes[0] == tape && Attempt(env, s, tapes[|tapes| - 1]) == last;
    assert Attempt(env, s, tapes[0]) == Some((Again, tapes[1]));
  }

  /**
   A step takes the operation of the first try that does not ask for another kind, and leaves what that
   try leaves; it has no result exactly when such a chain of tries runs dry.
   */
  lemma {:induction false} StepExactly(env: Env, s: seq<Byte>, tape: Tape)
    requires env.Valid() && 1 <= |s| <= env.maxLen
    ensures forall op, rest :: StepOf(env, s, tape) == Some((op, rest)) <==> Settles(env, s, tape, Some((Go(op), rest)))
    ensures StepOf(env, s, tape) == None <==> Settles(env, s, tape, None)
    decreases |tape|
  {
    hide Plan, Below, Settles, Attempt;
    AttemptIs(env, s, tape);
    SettlesNow(env, s, tape);
    var d := Attempt(env, s, tape);
    if d.Some? && d.value.0.Again? {
      var next := d.value.1;
      StepExactly(env, s, next);
      forall op, rest
        ensures StepOf(env, s, tape) == Some((op, rest)) <==> Settles(env, s, tape, Some((Go(op), rest)))
      {
        SettlesLater(env, s, tape, next, Some((Go(op), rest)));
      }
      SettlesLater(env, s, tape, next, None);
    } else {
      forall op, rest
        ensures StepOf(env, s, tape) == Some((op, rest)) <==> Settles(env, s, tape, Some((Go(op), rest)))
      {
        if Settles(env, s, tape, Some((Go(op), rest))) && d != Some((Go(op), rest)) {
          SettledOnce(env, s, tape, Some((Go(op), rest)));
        }
      }
      if Settles(env, s, tape, None) && d != None {
        SettledOnce(env, s, tape, None);
      }
    }
  }

  lemma AttemptIs(env: Env, s: seq<Byte>, tape: Tape)
    requires env.Valid() && 1 <= |s| <= env.maxLen
    ensures var d := Attempt(env, s, tape);
      && (d.Some? ==> |d.value.1| < |tape|)
      && StepOf(env, s, tape) ==
           match d
           case None => None
           case Some((Go(op), rest)) => Some((op, rest))
           case Some((Again, rest)) => StepOf(env, s, rest)
  {
    hide Below, Plan;
  }

  // ---------------------------------------------------------------- a run of steps

  /** A run: the buffers and the tapes before each step and at the end; the operation and the edit of each step. */
  datatype Run = Run(bufs: seq<seq<Byte>>, tapes: seq<Tape>, ops: seq<Op>, edits: seq<Edit>)

  /** The step settles on the operation, which is in order, is the edit, and makes `t` of `s`. */
  ghost predicate StepTo(env: Env, s: seq<Byte>, tape: Tape, op: Op, e: Edit, t: seq<Byte>, rest: Tape) {
    && |env.table| == STRATEGY_SIZE && 1 <= |s| <= env.maxLen && Settles(env, s, tape, Some((Go(op), rest)))
    && OpOk(env, |s|, op) && e == EditOf(env, s, op) && t == After(env, s, op)
  }

  ghost predicate IsRun(env: Env, r: Run) {
    && |r.bufs| == |r.ops| + 1 && |r.tapes| == |r.ops| + 1 && |r.edits| == |r.ops|
    && forall i | 0 <= i < |r.ops| ::
         StepTo(env, r.bufs[i], r.tapes[i], r.ops[i], r.edits[i], r.bufs[i + 1], r.tapes[i + 1])
  }

  /** The run leads in `steps` steps from `s` and `tape` to `t` and `rest`. */
  ghost predicate RunTo(env: Env, s: seq<Byte>, steps: nat, tape: Tape, t: seq<Byte>, rest: Tape, r: Run) {
    && IsRun(env, r) && |r.ops| == steps
    && r.bufs[0] == s && r.tapes[0] == tape && r.bufs[steps] == t && r.tapes[steps] == rest
  }

  ghost predicate Runs(env: Env, s: seq<Byte>, steps: nat, tape: Tape, t: seq<Byte>, rest: Tape, edits: seq<Edit>) {
    exists r :: RunTo(env, s, steps, tape, t, rest, r) && r.edits == edits
  }

  lemma StepIs(env: Env, s: seq<Byte>, tape: Tape, op: Op, rest: Tape)
    requires env.Valid() && 1 <= |s| <= env.maxLen
    ensures StepOf(env, s, tape) == Some((op, rest)) <==>
            OpOk(env, |s|, op) && StepTo(env, s, tape, op, EditOf(env, s, op), After(env, s, op), rest)
  {
    hide StepOf, Settles, OpOk, After, EditOf;
    StepExactly(env, s, tape);
  }

  /** A run without its first step. */
  function Behind(r: Run): Run
    requires r.bufs != [] && r.tapes != [] && r.ops != [] && r.edits != []
  {
    Run(r.bufs[1..], r.tapes[1..], r.ops[1..], r.edits[1..])
  }

  /** A run with one more step before it. */
  function Ahead(s: seq<Byte>, tape: Tape, op: Op, e: Edit, r: Run): Run {
    Run([s] + r.bufs, [tape] + r.tapes, [op] + r.ops, [e] + r.edits)
  }

  lemma RunBehind(env: Env, s: seq<Byte>, steps: nat, tape: Tape, t: seq<Byte>, rest: Tape, r: Run)
    requires 0 < steps && RunTo(env, s, steps, tape, t, rest, r)
    ensures StepTo(env, s, tape, r.ops[0], r.edits[0], r.bufs[1], r.tapes[1])
    ensures RunTo(env, r.bufs[1], steps - 1, r.tapes[1], t, rest, Behind(r))
  {
    hide StepTo;
    var q := Behind(r);
    assert StepTo(env, r.bufs[0], r.tapes[0], r.ops[0], r.edits[0], r.bufs[1], r.tapes[1]);
    forall i | 0 <= i < |q.ops|
      ensures StepTo(env, q.bufs[i], q.tapes[i], q.ops[i], q.edits[i], q.bufs[i + 1], q.tapes[i + 1])
    {
      var k := i + 1;
      assert StepTo(env, r.bufs[k], r.tapes[k], r.ops[k], r.edits[k], r.bufs[k + 1], r.tapes[k + 1]);
    }
  }

  lemma RunAhead(env: Env, s: seq<Byte>, steps: nat, tape: Tape, t: seq<Byte>, rest: Tape, r: Run,
                 before: seq<Byte>, from: Tape, op: Op, e: Edit)
    requires RunTo(env, s, steps, tape, t, rest, r) && StepTo(env, before, from, op, e, s, tape)
    ensures RunTo(env, before, steps + 1, from, t, rest, Ahead(before, from, op, e, r))
  {
    hide StepTo;
    var q := Ahead(before, from, op, e, r);
    forall i | 0 <= i < |q.ops|
      ensures StepTo(env, q.bufs[i], q.tapes[i], q.ops[i], q.edits[i], q.bufs[i + 1], q.tapes[i + 1])
    {
      if i > 0 {
        var k := i - 1;
        assert StepTo(env, r.bufs[k], r.tapes[k], r.ops[k], r.edits[k], r.bufs[k + 1], r.tapes[k + 1]);
      }
    }
  }

  lemma MutatedOne(env: Env, s: seq<Byte>, steps: nat, tape: Tape, op: Op, mid: Tape)
    requires env.Valid() && 1 <= |s| <= env.maxLen && 0 < steps && StepOf(env, s, tape) == Some((op, mid))
    ensures OpOk(env, |s|, op) && 1 <= |After(env, s, op)| <= env.maxLen
    ensures var next := Mutated(env, After(env, s, op), steps - 1, mid);
      && (next.None? ==> Mutated(env, s, steps, tape) == None)
      && (next.Some? ==>
            Mutated(env, s, steps, tape) == Some((next.value.0, next.value.1, [EditOf(env, s, op)] + next.value.2)))
  {
    hide StepOf, Apply, OpOk, EditOf, Fits;
    OpIsLegal(env, s, op);
  }

  lemma NoneFirst(env: Env, s: seq<Byte>, steps: nat, tape: Tape)
    requires env.Valid() && 1 <= |s| <= env.maxLen && 0 < steps && StepOf(env, s, tape) == None
    ensures Mutated(env, s, steps, tape) == None
  {
    hide StepOf;
  }

  lemma RunMore(env: Env, s: seq<Byte>, steps: nat, tape: Tape, op: Op, mid: Tape, t: seq<Byte>, rest: Tape, q: Run)
      returns (r: Run)
    requires env.Valid() && 1 <= |s| <= env.maxLen && StepOf(env, s, tape) == Some((op, mid))
    requires RunTo(env, After(env, s, op), steps, mid, t, rest, q)
    ensures RunTo(env, s, steps + 1, tape, t, rest, r) && r.edits == [EditOf(env, s, op)] + q.edits
  {
    hide StepOf, After, OpOk, EditOf, StepTo, RunTo;
    StepIs(env, s, tape, op, mid);
    RunAhead(env, After(env, s, op), steps, mid, t, rest, q, s, tape, op, EditOf(env, s, op));
    r := Ahead(s, tape, op, EditOf(env, s, op), q);
  }

  lemma RunStart(env: Env, s: seq<Byte>, tape: Tape, t: seq<Byte>, rest: Tape, r: Run)
    ensures RunTo(env, s, 0, tape, s, tape, Run([s], [tape], [], []))
    ensures RunTo(env, s, 0, tape, t, rest, r) ==> t == s && rest == tape && r.edits == []
  {
    hide StepTo;
  }

  lemma {:induction false} RunFound(env: Env, s: seq<Byte>, steps: nat, tape: Tape) returns (r: Run)
    requires env.Valid() && 1 <= |s| <= env.maxLen && Mutated(env, s, steps, tape).Some?
    ensures var (t, rest, edits) := Mutated(env, s, steps, tape).value;
      RunTo(env, s, steps, tape, t, rest, r) && r.edits == edits
    decreases steps
  {
    hide StepOf, After, OpOk, EditOf, RunTo, Mutated;
    if steps == 0 {
      MutatedNone(env, s, tape);
      r := Run([s], [tape], [], []);
      RunStart(env, s, tape, s, tape, r);
    } else if StepOf(env, s, tape).None? {
      NoneFirst(env, s, steps, tape);
    } else {
      var (op, mid) := StepOf(env, s, tape).value;
      MutatedOne(env, s, steps, tape, op, mid);
      var now := After(env, s, op);
      var q := RunFound(env, now, steps - 1, mid);
      var (t, rest, edits) := Mutated(env, now, steps - 1, mid).value;
      r := RunMore(env, s, steps - 1, tape, op, mid, t, rest, q);
    }
  }

  lemma MutatedNone(env: Env, s: seq<Byte>, tape: Tape)
    requires env.Valid() && 1 <= |s| <= env.maxLen
    ensures Mutated(env, s, 0, tape) == Some((s, tape, []))
  {
  }

  lemma RunLess(env: Env, s: seq<Byte>, steps: nat, tape: Tape, t: seq<Byte>, rest: Tape, r: Run)
      returns (op: Op, mid: Tape, q: Run)
    requires env.Valid() && 1 <= |s| <= env.maxLen && 0 < steps && RunTo(env, s, steps, tape, t, rest, r)
    ensures StepOf(env, s, tape) == Some((op, mid)) && r.edits == [EditOf(env, s, op)] + q.edits
    ensures RunTo(env, After(env, s, op), steps - 1, mid, t, rest, q)
  {
    hide StepOf, After, OpOk, EditOf, Settles;
    RunBehind(env, s, steps, tape, t, rest, r);
    op, mid, q := r.ops[0], r.tapes[1], Behind(r);
    StepIs(env, s, tape, op, mid);
    assert r.edits == [r.edits[0]] + r.edits[1..];
  }

  lemma {:induction false} RunKnown(env: Env, s: seq<Byte>, steps: nat, tape: Tape, t: seq<Byte>, rest: Tape, r: Run)
    requires env.Valid() && 1 <= |s| <= env.maxLen && RunTo(env, s, steps, tape, t, rest, r)
    ensures Mutated(env, s, steps, tape) == Some((t, rest, r.edits))
    decreases steps
  {
    hide StepOf, After, OpOk, EditOf, Mutated, RunTo;
    if steps == 0 {
      MutatedNone(env, s, tape);
      RunStart(env, s, tape, t, rest, r);
    } else {
      var op, mid, q := RunLess(env, s, steps, tape, t, rest, r);
      MutatedOne(env, s, steps, tape, op, mid);
      RunKnown(env, After(env, s, op), steps - 1, mid, t, rest, q);
    }
  }

  /** A call does exactly such a run, and has no result when there is none. */
  lemma MutatedExactly(env: Env, s: seq<Byte>, steps: nat, tape: Tape)
    requires env.Valid() && 1 <= |s| <= env.maxLen
    ensures forall t, rest, edits ::
      (Mutated(env, s, steps, tape) == Some((t, rest, edits))) == Runs(env, s, steps, tape, t, rest, edits)
  {
    hide Mutated, RunTo;
    if Mutated(env, s, steps, tape).Some? {
      var r := RunFound(env, s, steps, tape);
    }
    forall t, rest, edits | Runs(env, s, steps, tape, t, rest, edits)
      ensures Mutated(env, s, steps, tape) == Some((t, rest, edits))
    {
      var r :| RunTo(env, s, steps, tape, t, rest, r) && r.edits == edits;
      RunKnown(env, s, steps, tape, t, rest, r);
    }
  }
}
