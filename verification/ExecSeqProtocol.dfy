/** Any number of processes running `next_exec_seq` at once, step by step. */
module ExecSeqProtocol {
  import opened Bytes
  import opened Decimal
  import opened ExecSeq

  /**
   Where a process is.  `offset` is that of its file descriptor.  Open and lock may fail; the file
   operations under the lock do not.
   */
  datatype Phase =
    | Fresh
    | Opened
    | Locked
    | HasRead(next: nat, offset: nat)
    | Sought(next: nat, offset: nat)
    | Truncated(next: nat, offset: nat)
    | Written(next: nat)
    | Failed
    | Unlocked(result: nat)
    | Done(result: nat)

  /** `log` records, for the statements, which process took which id, in the order of the locks. */
  datatype State = State(file: seq<Byte>, holder: int, procs: seq<Phase>, log: seq<(nat, nat)>)

  const NOBODY: int := -1

  datatype Step =
    | Open(p: nat) | OpenFails(p: nat) | Lock(p: nat) | LockFails(p: nat) | Read(p: nat) | Seek(p: nat)
    | Truncate(p: nat) | Write(p: nat) | Unlock(p: nat) | Close(p: nat)

  function Init(file: seq<Byte>, n: nat): State {
    State(file, NOBODY, seq(n, _ => Fresh), [])
  }

  predicate Enabled(s: State, step: Step) {
    step.p < |s.procs| &&
    var phase := s.procs[step.p];
    match step
    case Open(_) => phase == Fresh
    case OpenFails(_) => phase == Fresh
    case Lock(_) => phase == Opened && s.holder == NOBODY
    case LockFails(_) => phase == Opened
    case Read(_) => phase == Locked
    case Seek(_) => phase.HasRead?
    case Truncate(_) => phase.Sought?
    case Write(_) => phase.Truncated?
    case Unlock(_) => phase.Written? || phase.Failed?
    case Close(_) => phase.Unlocked?
  }

  function Next(s: State, step: Step): State
    requires Enabled(s, step)
  {
    var p := step.p;
    var phase := s.procs[p];
    match step
    case Open(_) => s.(procs := s.procs[p := Opened])
    case OpenFails(_) => s.(procs := s.procs[p := Done(0)])
    case Lock(_) => s.(procs := s.procs[p := Locked], holder := p)
    case LockFails(_) => s.(procs := s.procs[p := Failed])
    case Read(_) =>
      var id := CountOf(s.file) + 1;
      s.(procs := s.procs[p := HasRead(id, |FirstBytes(s.file)|)], log := s.log + [(p, id)])
    case Seek(_) => s.(procs := s.procs[p := Sought(phase.next, 0)])
    case Truncate(_) => s.(procs := s.procs[p := Truncated(phase.next, phase.offset)], file := [])
    case Write(_) => s.(procs := s.procs[p := Written(phase.next)], file := WriteAt(s.file, phase.offset,
      Digits(phase.next)))
    case Unlock(_) =>
      if phase.Written? then s.(procs := s.procs[p := Unlocked(phase.next)], holder := NOBODY)
      else s.(procs := s.procs[p := Unlocked(0)])
    case Close(_) => s.(procs := s.procs[p := Done(phase.result)])
  }

  ghost predicate RunsTo(s: State, steps: seq<Step>, t: State)
    decreases |steps|
  {
    if steps == [] then s == t
    else Enabled(s, steps[0]) && RunsTo(Next(s, steps[0]), steps[1..], t)
  }

  // ---------------------------------------------------------------- the invariant

  predicate Holding(phase: Phase) {
    phase.Locked? || phase.HasRead? || phase.Sought? || phase.Truncated? || phase.Written?
  }

  /** The id a process has been given, or 0. */
  function IdOf(phase: Phase): nat {
    match phase
    case HasRead(next, _) => next
    case Sought(next, _) => next
    case Truncated(next, _) => next
    case Written(next) => next
    case Unlocked(result) => result
    case Done(result) => result
    case _ => 0
  }

  /** The ids in lock order are first + 1, first + 2, ... */
  ghost predicate Consecutive(log: seq<(nat, nat)>, first: nat) {
    forall k | 0 <= k < |log| :: log[k].1 == first + 1 + k
  }

  /** Exactly one process is inside, and it is the holder. */
  ghost predicate Exclusive(holder: int, procs: seq<Phase>) {
    forall p | 0 <= p < |procs| :: Holding(procs[p]) <==> holder == p
  }

  ghost predicate HolderKnown(holder: int, procs: seq<Phase>) {
    holder == NOBODY || 0 <= holder < |procs|
  }

  /** What the file holds when nobody is changing it: the last id handed out. */
  ghost predicate Settled(file: seq<Byte>, log: seq<(nat, nat)>, first: nat) {
    if log == [] then CountOf(file) == first else file == Digits(log[|log| - 1].1)
  }

  /** Where the holder is, what the file looks like. */
  ghost predicate FileAgrees(s: State, first: nat) {
    && (s.holder == NOBODY ==> Settled(s.file, s.log, first))
    && (0 <= s.holder < |s.procs| ==> PhaseAgrees(s.file, s.log, first, s.holder, s.procs[s.holder]))
  }

  ghost predicate PhaseAgrees(file: seq<Byte>, log: seq<(nat, nat)>, first: nat, p: nat, phase: Phase) {
    && (phase.Locked? ==> Settled(file, log, first))
    && (Holding(phase) && !phase.Locked? ==> log != [] && log[|log| - 1] == (p, phase.next))
    && (phase.Sought? ==> phase.offset == 0)
    && (phase.Truncated? ==> phase.offset == 0 && file == [])
    && (phase.Written? ==> file == Digits(phase.next))
  }

  /** A positive id is in the log under its process; and each process is in the log once at most. */
  ghost predicate LogAgrees(procs: seq<Phase>, log: seq<(nat, nat)>) {
    && (forall k | 0 <= k < |log| :: log[k].0 < |procs| && IdOf(procs[log[k].0]) == log[k].1 > 0)
    && (forall j, k | 0 <= j < k < |log| :: log[j].0 != log[k].0)
    && (forall p | 0 <= p < |procs| && IdOf(procs[p]) > 0 :: Logged(log, p))
  }

  ghost predicate Logged(log: seq<(nat, nat)>, p: nat) {
    exists k :: 0 <= k < |log| && log[k].0 == p
  }

  /** How many ids can be handed out in a row when the file starts at `first`. */
  function Room(first: nat): nat {
    if first < Pow10(64) then Pow10(64) - first else 0
  }

  /** Ids are consecutive as long as there is room; the first one beyond starts again far below. */
  ghost predicate IdsAgree(log: seq<(nat, nat)>, first: nat) {
    if |log| <= Room(first) then Consecutive(log, first)
    else log[Room(first)].1 == Pow10(63) + 1 && Consecutive(log[..Room(first)], first)
  }

  ghost predicate Inv(s: State, first: nat) {
    && first < Pow10(64)
    && HolderKnown(s.holder, s.procs) && Exclusive(s.holder, s.procs)
    && FileAgrees(s, first) && LogAgrees(s.procs, s.log) && IdsAgree(s.log, first)
  }

  lemma InitInv(file: seq<Byte>, n: nat)
    ensures Inv(Init(file, n), CountOf(file))
  {
    hide CountOf, Pow10;
    CountBound(file);
  }

  /** One more id. */
  lemma IdsStep(file: seq<Byte>, log: seq<(nat, nat)>, first: nat, p: nat)
    requires first < Pow10(64) && IdsAgree(log, first) && Settled(file, log, first)
    ensures IdsAgree(log + [(p, CountOf(file) + 1)], first)
  {
    hide CountOf, Pow10, Digits;
    var id := CountOf(file) + 1;
    var more := log + [(p, id)];
    if |log| < Room(first) {
      if log != [] {
        ReadBack(log[|log| - 1].1);
      }
      assert id == first + |log| + 1;
    } else if |log| == Room(first) {
      Restart();
      assert more[..Room(first)] == log;
    } else {
      assert more[..Room(first)] == log[..Room(first)];
    }
  }

  lemma LogStep(procs: seq<Phase>, log: seq<(nat, nat)>, p: nat, phase: Phase, id: nat)
    requires LogAgrees(procs, log) && p < |procs| && IdOf(procs[p]) == 0 && IdOf(phase) == id > 0
    ensures LogAgrees(procs[p := phase], log + [(p, id)])
  {
    var more := log + [(p, id)];
    forall q | 0 <= q < |procs| && IdOf(procs[p := phase][q]) > 0
      ensures Logged(more, q)
    {
      if q == p {
        assert more[|log|].0 == p;
      } else {
        assert Logged(log, q);
        var k :| 0 <= k < |log| && log[k].0 == q;
        assert more[k].0 == q;
      }
    }
  }

  lemma LogSame(procs: seq<Phase>, log: seq<(nat, nat)>, p: nat, phase: Phase)
    requires LogAgrees(procs, log) && p < |procs| && IdOf(procs[p]) == IdOf(phase)
    ensures LogAgrees(procs[p := phase], log)
  {
    hide Logged;
  }

  lemma KeepRead(s: State, first: nat, p: nat)
    requires Inv(s, first) && Enabled(s, Read(p))
    ensures Inv(Next(s, Read(p)), first)
  {
    hide CountOf, Pow10, Digits, IdsAgree, LogAgrees, Room;
    var id := CountOf(s.file) + 1;
    assert s.holder == p;
    IdsStep(s.file, s.log, first, p);
    LogStep(s.procs, s.log, p, HasRead(id, |FirstBytes(s.file)|), id);
  }

  /** The steps that do not hand out an id. */
  lemma KeepOther(s: State, first: nat, step: Step)
    requires Inv(s, first) && Enabled(s, step) && !step.Read?
    ensures Inv(Next(s, step), first)
  {
    hide CountOf, Pow10, Digits, IdsAgree, LogAgrees, Room, WriteAt;
    var t := Next(s, step);
    assert t.log == s.log;
    LogSame(s.procs, s.log, step.p, t.procs[step.p]);
    if step.Write? {
      WriteFresh(Digits(s.procs[step.p].next));
    }
  }

  lemma {:induction false} RunKeeps(s: State, first: nat, steps: seq<Step>, t: State)
    requires Inv(s, first) && RunsTo(s, steps, t)
    ensures Inv(t, first) && |t.procs| == |s.procs|
    decreases |steps|
  {
    hide Inv, Enabled;
    if steps != [] {
      if steps[0].Read? {
        KeepRead(s, first, steps[0].p);
      } else {
        KeepOther(s, first, steps[0]);
      }
      SameProcs(s, steps[0]);
      RunKeeps(Next(s, steps[0]), first, steps[1..], t);
    }
  }

  lemma SameProcs(s: State, step: Step)
    requires Enabled(s, step)
    ensures |Next(s, step).procs| == |s.procs|
  {
    hide CountOf, Digits, WriteAt;
  }

  /**
   For any number of processes and any interleaving: at most one is inside the lock; every positive id a
   process ends up with is its own entry in the log; and the ids are consecutive in the order of the
   locks exactly while the counter stays within 10^64, the largest count 64 bytes can lead to.
   */
  lemma EveryRun(file: seq<Byte>, n: nat, steps: seq<Step>, t: State)
    requires RunsTo(Init(file, n), steps, t)
    ensures Exclusive(t.holder, t.procs) && LogAgrees(t.procs, t.log) && |t.log| <= |t.procs| == n
    ensures Consecutive(t.log, CountOf(file)) <==> CountOf(file) + |t.log| <= Pow10(64)
  {
    hide CountOf, Pow10, LogAgrees, Exclusive, FileAgrees, RunsTo;
    var first := CountOf(file);
    InitInv(file, n);
    RunKeeps(Init(file, n), first, steps, t);
    LogShort(t.procs, t.log);
    if |t.log| > Room(first) {
      Restart();
    }
  }

  /** While the counter stays within 10^64, no two processes end up with the same positive id. */
  lemma IdsDistinct(file: seq<Byte>, n: nat, steps: seq<Step>, t: State, p: nat, q: nat)
    requires RunsTo(Init(file, n), steps, t) && CountOf(file) + |t.log| <= Pow10(64)
    requires p < n && q < n && p != q
    ensures |t.procs| == n
    ensures IdOf(t.procs[p]) > 0 ==> IdOf(t.procs[p]) != IdOf(t.procs[q])
  {
    hide CountOf, Pow10, RunsTo;
    EveryRun(file, n, steps, t);
    if IdOf(t.procs[p]) > 0 && IdOf(t.procs[q]) > 0 {
      assert Logged(t.log, p) && Logged(t.log, q);
      var j :| 0 <= j < |t.log| && t.log[j].0 == p;
      var k :| 0 <= k < |t.log| && t.log[k].0 == q;
    }
  }

  /** The processes in the log. */
  function Pids(log: seq<(nat, nat)>): set<nat> {
    if log == [] then {} else Pids(log[..|log| - 1]) + {log[|log| - 1].0}
  }

  function UpTo(n: nat): (r: set<nat>)
    ensures |r| == n && forall p: nat :: p in r <==> p < n
  {
    if n == 0 then {} else UpTo(n - 1) + {n - 1}
  }

  lemma {:induction false} PidsCount(log: seq<(nat, nat)>, n: nat)
    requires forall j, k | 0 <= j < k < |log| :: log[j].0 != log[k].0
    requires forall k | 0 <= k < |log| :: log[k].0 < n
    ensures |Pids(log)| == |log| && Pids(log) <= UpTo(n)
    ensures forall p | p in Pids(log) :: Logged(log, p)
    decreases |log|
  {
    if log != [] {
      var before, last := log[..|log| - 1], log[|log| - 1];
      PidsCount(before, n);
      forall p | p in Pids(before)
        ensures Logged(log, p) && p != last.0
      {
        var k :| 0 <= k < |before| && before[k].0 == p;
        assert log[k].0 == p;
      }
      assert log[|log| - 1].0 == last.0;
    }
  }

  /** There are never more ids than processes. */
  lemma LogShort(procs: seq<Phase>, log: seq<(nat, nat)>)
    requires LogAgrees(procs, log)
    ensures |log| <= |procs|
  {
    PidsCount(log, |procs|);
    assert UpTo(|procs|) == Pids(log) + (UpTo(|procs|) - Pids(log));
  }
}
