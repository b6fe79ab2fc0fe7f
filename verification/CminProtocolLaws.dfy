/** What every step of the queue protocol keeps, and why no run gets stuck. */
module CminProtocolLaws {
  import opened CminWorker
  import opened CminWorkerLaws
  import opened CminProtocol

  // ---------------------------------------------------------------- sums over the workers

  function SumM<T>(xs: seq<multiset<T>>): multiset<T> {
    if xs == [] then multiset{} else xs[0] + SumM(xs[1..])
  }

  function SumN(xs: seq<nat>): nat {
    if xs == [] then 0 else xs[0] + SumN(xs[1..])
  }

  lemma {:induction false} SumMUpdate<T>(xs: seq<multiset<T>>, i: nat, y: multiset<T>)
    requires i < |xs|
    ensures SumM(xs[i := y]) + xs[i] == SumM(xs) + y
    decreases |xs|
  {
    var now := xs[i := y];
    if i == 0 {
      assert now[1..] == xs[1..] && now[0] == y;
      assert SumM(now) + xs[0] == y + SumM(xs[1..]) + xs[0];
    } else {
      assert now[1..] == xs[1..][i - 1 := y];
      SumMUpdate(xs[1..], i - 1, y);
      assert SumM(now) + xs[i] == xs[0] + (SumM(xs[1..][i - 1 := y]) + xs[1..][i - 1]);
    }
  }

  lemma {:induction false} SumNUpdate(xs: seq<nat>, i: nat, y: nat)
    requires i < |xs|
    ensures SumN(xs[i := y]) + xs[i] == SumN(xs) + y
    decreases |xs|
  {
    if i == 0 {
      assert xs[0 := y][1..] == xs[1..];
    } else {
      assert xs[i := y][1..] == xs[1..][i - 1 := y];
      SumNUpdate(xs[1..], i - 1, y);
    }
  }

  lemma {:induction false} SumMZero<T>(xs: seq<multiset<T>>)
    requires forall i | 0 <= i < |xs| :: xs[i] == multiset{}
    ensures SumM(xs) == multiset{}
    decreases |xs|
  {
    if xs != [] {
      SumMZero(xs[1..]);
    }
  }

  lemma {:induction false} SumNZero(xs: seq<nat>)
    requires forall i | 0 <= i < |xs| :: xs[i] == 0
    ensures SumN(xs) == 0
    decreases |xs|
  {
    if xs != [] {
      SumNZero(xs[1..]);
    }
  }

  lemma {:induction false} SumNBound(xs: seq<nat>, i: nat)
    requires (forall j | 0 <= j < |xs| :: xs[j] <= 1) && i < |xs| && xs[i] == 0
    ensures SumN(xs) < |xs|
    decreases |xs|
  {
    if i == 0 {
      SumNAtMost(xs[1..]);
    } else {
      SumNBound(xs[1..], i - 1);
    }
  }

  lemma {:induction false} SumNAtMost(xs: seq<nat>)
    requires forall j | 0 <= j < |xs| :: xs[j] <= 1
    ensures SumN(xs) <= |xs|
    decreases |xs|
  {
    if xs != [] {
      SumNAtMost(xs[1..]);
    }
  }

  lemma {:induction false} SumNAllOne(xs: seq<nat>)
    requires forall j | 0 <= j < |xs| :: xs[j] == 1
    ensures SumN(xs) == |xs|
    decreases |xs|
  {
    if xs != [] {
      SumNAllOne(xs[1..]);
    }
  }

  lemma {:induction false} SumMHas<T>(xs: seq<multiset<T>>, i: nat, e: T)
    requires i < |xs|
    ensures xs[i][e] <= SumM(xs)[e]
    decreases |xs|
  {
    if i > 0 {
      SumMHas(xs[1..], i - 1, e);
    }
  }

  lemma {:induction false} SumMFrom<T>(xs: seq<multiset<T>>, e: T) returns (i: nat)
    requires e in SumM(xs)
    ensures i < |xs| && e in xs[i]
    decreases |xs|
  {
    if e in xs[0] {
      i := 0;
    } else {
      var j := SumMFrom(xs[1..], e);
      i := j + 1;
    }
  }

  /** An element counted once lies in one summand only. */
  lemma {:induction false} SumMUnique<T>(xs: seq<multiset<T>>, i: nat, j: nat, e: T)
    requires i < j < |xs| && e in xs[i] && e in xs[j]
    ensures SumM(xs)[e] >= 2
    decreases |xs|
  {
    if i == 0 {
      SumMHas(xs[1..], j - 1, e);
    } else {
      SumMUnique(xs[1..], i - 1, j - 1, e);
    }
  }

  // ---------------------------------------------------------------- what the workers hold

  function Held(workers: seq<WorkerState>): (r: seq<multiset<nat>>)
    ensures |r| == |workers|
    ensures forall i | 0 <= i < |r| :: r[i] == multiset(workers[i].pending) + multiset(workers[i].done)
  {
    seq(|workers|, i requires 0 <= i < |workers| => multiset(workers[i].pending) + multiset(workers[i].done))
  }

  function Sent(workers: seq<WorkerState>): (r: seq<multiset<Message>>)
    ensures |r| == |workers| && forall i | 0 <= i < |r| :: r[i] == multiset(workers[i].sent)
  {
    seq(|workers|, i requires 0 <= i < |workers| => multiset(workers[i].sent))
  }

  function StoppedFlags(workers: seq<WorkerState>): (r: seq<nat>)
    ensures |r| == |workers|
    ensures forall i | 0 <= i < |r| :: r[i] == if workers[i].phase == Stopped then 1 else 0
  {
    seq(|workers|, i requires 0 <= i < |workers| => if workers[i].phase == Stopped then 1 else 0)
  }

  function PendingCounts(workers: seq<WorkerState>): (r: seq<nat>)
    ensures |r| == |workers| && forall i | 0 <= i < |r| :: r[i] == |workers[i].pending|
  {
    seq(|workers|, i requires 0 <= i < |workers| => |workers[i].pending|)
  }

  function JobFiles(jobs: seq<Job>): seq<nat> {
    if jobs == [] then []
    else (match jobs[0] case Batch(files) => files case Stop => []) + JobFiles(jobs[1..])
  }

  function StopCount(jobs: seq<Job>): nat {
    if jobs == [] then 0 else (if jobs[0].Stop? then 1 else 0) + StopCount(jobs[1..])
  }

  lemma {:induction false} JobFilesAppend(a: seq<Job>, b: seq<Job>)
    ensures JobFiles(a + b) == JobFiles(a) + JobFiles(b) && StopCount(a + b) == StopCount(a) + StopCount(b)
    decreases |a|
  {
    if a == [] {
      assert a + b == b;
    } else {
      assert (a + b)[1..] == a[1..] + b;
      JobFilesAppend(a[1..], b);
    }
  }

  // ---------------------------------------------------------------- the invariant

  /** Every file index is in exactly one place: a job, a batch being worked on, or processed. */
  ghost predicate FilesConserved(cfg: Config, undispatched: seq<Job>, queue: seq<Job>, workers: seq<WorkerState>) {
    multiset(JobFiles(undispatched)) + multiset(JobFiles(queue)) + SumM(Held(workers))
      == multiset(Range(0, |cfg.traces|))
  }

  /** As many sentinels are left as there are workers still to stop. */
  ghost predicate StopsConserved(cfg: Config, undispatched: seq<Job>, queue: seq<Job>, workers: seq<WorkerState>) {
    StopCount(undispatched) + StopCount(queue) + SumN(StoppedFlags(workers)) == cfg.workers
  }

  /** Each result comes from one stopped worker, each stopped worker has one. */
  ghost predicate ResultsConserved(workers: seq<WorkerState>, results: seq<nat>, gathered: seq<nat>) {
    && |results| + |gathered| == SumN(StoppedFlags(workers))
    && (forall w | 0 <= w < |workers| ::
      (multiset(results) + multiset(gathered))[w] == if workers[w].phase == Stopped then 1 else 0)
    && (forall w | w in multiset(results) + multiset(gathered) :: w < |workers|)
  }

  /** No message is lost or made up. */
  ghost predicate MessagesConserved(workers: seq<WorkerState>, progress: seq<Message>, inbox: seq<Message>) {
    multiset(progress) + multiset(inbox) == SumM(Sent(workers))
  }

  predicate Stopping(workers: seq<WorkerState>) {
    exists w :: 0 <= w < |workers| && workers[w].phase == Stopped
  }

  /** The sentinels come after all batches, batches are not empty, and no batch is left once a worker stopped. */
  ghost predicate Ordered(jobs: seq<Job>, stopping: bool) {
    && (forall i, j | 0 <= i < j < |jobs| && jobs[i].Stop? :: jobs[j].Stop?)
    && (forall i | 0 <= i < |jobs| && jobs[i].Batch? :: jobs[i].files != [])
    && (stopping ==> forall i | 0 <= i < |jobs| :: jobs[i].Stop?)
  }

  /** A worker's tables and messages are those of the files it has processed. */
  ghost predicate WorkerOk(cfg: Config, w: nat, p: WorkerState) {
    && (p.phase == Busy <==> p.pending != [])
    && InRange(cfg, p.done) && InRange(cfg, p.pending)
    && (p.data, p.sent) == ProcessAll(cfg, w, p.done)
  }

  ghost predicate WorkersOk(cfg: Config, workers: seq<WorkerState>) {
    |workers| == cfg.workers && forall w | 0 <= w < |workers| :: WorkerOk(cfg, w, workers[w])
  }

  ghost predicate Inv(cfg: Config, s: State) {
    && FilesConserved(cfg, s.undispatched, s.queue, s.workers)
    && StopsConserved(cfg, s.undispatched, s.queue, s.workers)
    && ResultsConserved(s.workers, s.results, s.gathered)
    && MessagesConserved(s.workers, s.progress, s.inbox)
    && Ordered(s.queue + s.undispatched, Stopping(s.workers))
    && WorkersOk(cfg, s.workers)
    && |s.inbox| <= |cfg.traces|
  }

  // ---------------------------------------------------------------- one worker changes

  lemma WorkerUpdate(workers: seq<WorkerState>, w: nat, p: WorkerState)
    requires w < |workers|
    ensures var now := workers[w := p];
      && SumM(Held(now)) + (multiset(workers[w].pending) + multiset(workers[w].done))
        == SumM(Held(workers)) + (multiset(p.pending) + multiset(p.done))
      && SumM(Sent(now)) + multiset(workers[w].sent) == SumM(Sent(workers)) + multiset(p.sent)
      && SumN(StoppedFlags(now)) + StoppedFlags(workers)[w]
        == SumN(StoppedFlags(workers)) + (if p.phase == Stopped then 1 else 0)
      && SumN(PendingCounts(now)) + |workers[w].pending| == SumN(PendingCounts(workers)) + |p.pending|
  {
    var now := workers[w := p];
    var held, flag := multiset(p.pending) + multiset(p.done), if p.phase == Stopped then 1 else 0;
    assert Held(now) == Held(workers)[w := held];
    assert Sent(now) == Sent(workers)[w := multiset(p.sent)];
    assert StoppedFlags(now) == StoppedFlags(workers)[w := flag];
    assert PendingCounts(now) == PendingCounts(workers)[w := |p.pending|];
    SumMUpdate(Held(workers), w, held);
    SumMUpdate(Sent(workers), w, multiset(p.sent));
    SumNUpdate(StoppedFlags(workers), w, flag);
    SumNUpdate(PendingCounts(workers), w, |p.pending|);
  }

  /** Cancelling one worker's old contribution. */
  lemma Gained<T>(now: multiset<T>, was: multiset<T>, sum: multiset<T>, extra: multiset<T>)
    requires now + was == sum + (was + extra)
    ensures now == sum + extra
  {
    forall e
      ensures now[e] == (sum + extra)[e]
    {
      assert (now + was)[e] == (sum + (was + extra))[e];
    }
  }

  /** How the sums change when worker `w` gains files and messages. */
  lemma WorkerGains(workers: seq<WorkerState>, w: nat, p: WorkerState, files: multiset<nat>,
      messages: multiset<Message>)
    requires w < |workers|
    requires multiset(p.pending) + multiset(p.done) == multiset(workers[w].pending) + multiset(workers[w].done) + files
    requires multiset(p.sent) == multiset(workers[w].sent) + messages
    ensures var now := workers[w := p];
      && SumM(Held(now)) == SumM(Held(workers)) + files
      && SumM(Sent(now)) == SumM(Sent(workers)) + messages
      && (workers[w].phase != Stopped ==>
        SumN(StoppedFlags(now)) == SumN(StoppedFlags(workers)) + (if p.phase == Stopped then 1 else 0))
  {
    hide SumM, SumN;
    var now := workers[w := p];
    WorkerUpdate(workers, w, p);
    Gained(SumM(Held(now)), multiset(workers[w].pending) + multiset(workers[w].done), SumM(Held(workers)), files);
    Gained(SumM(Sent(now)), multiset(workers[w].sent), SumM(Sent(workers)), messages);
  }

  lemma RangeHas(hi: nat, e: nat)
    requires e in multiset(Range(0, hi))
    ensures e < hi
  {
  }

  lemma QueueHead(jobs: seq<Job>)
    requires jobs != []
    ensures JobFiles(jobs) == JobFiles([jobs[0]]) + JobFiles(jobs[1..])
    ensures StopCount(jobs) == StopCount([jobs[0]]) + StopCount(jobs[1..])
    ensures JobFiles([jobs[0]]) == if jobs[0].Batch? then jobs[0].files else []
    ensures StopCount([jobs[0]]) == if jobs[0].Stop? then 1 else 0
  {
    assert jobs == [jobs[0]] + jobs[1..];
    JobFilesAppend([jobs[0]], jobs[1..]);
    assert [jobs[0]][1..] == [];
  }

  // ---------------------------------------------------------------- every step keeps the invariant

  lemma KeepDispatch(cfg: Config, s: State)
    requires Inv(cfg, s) && Enabled(cfg, s, Dispatch)
    ensures Inv(cfg, Next(cfg, s, Dispatch))
  {
    hide WorkersOk, SumM, SumN, ResultsConserved, MessagesConserved, Ordered, JobFiles, StopCount, Stopping;
    var t := Next(cfg, s, Dispatch);
    QueueHead(s.undispatched);
    JobFilesAppend(s.queue, [s.undispatched[0]]);
    assert t.queue + t.undispatched == s.queue + s.undispatched;
  }

  lemma KeepReceive(cfg: Config, s: State, i: nat)
    requires Inv(cfg, s) && Enabled(cfg, s, Receive(i))
    ensures Inv(cfg, Next(cfg, s, Receive(i)))
  {
    hide WorkersOk, SumM, SumN, ResultsConserved, Ordered, FilesConserved, StopsConserved, Stopping, Without;
    var t := Next(cfg, s, Receive(i));
    assert multiset(t.progress) + multiset{s.progress[i]} == multiset(s.progress);
    assert multiset(t.inbox) == multiset(s.inbox) + multiset{s.progress[i]};
  }

  lemma KeepGather(cfg: Config, s: State, i: nat)
    requires Inv(cfg, s) && Enabled(cfg, s, Gather(i))
    ensures Inv(cfg, Next(cfg, s, Gather(i)))
  {
    hide WorkersOk, SumM, SumN, MessagesConserved, Ordered, FilesConserved, StopsConserved, Stopping, Without;
    var t := Next(cfg, s, Gather(i));
    var m := s.results[i];
    assert multiset(t.results) + multiset{m} == multiset(s.results);
    assert multiset(t.gathered) == multiset(s.gathered) + multiset{m};
    assert multiset(t.results) + multiset(t.gathered) == multiset(s.results) + multiset(s.gathered);
  }

  lemma OrderedTail(jobs: seq<Job>, stopping: bool)
    requires jobs != [] && Ordered(jobs, stopping)
    ensures Ordered(jobs[1..], stopping || jobs[0].Stop?)
    ensures jobs[0].Batch? ==> jobs[0].files != [] && !stopping
  {
    forall i, j | 0 <= i < j < |jobs[1..]| && jobs[1..][i].Stop?
      ensures jobs[1..][j].Stop?
    {
      assert jobs[1..][i] == jobs[i + 1] && jobs[1..][j] == jobs[j + 1];
    }
    forall i | 0 <= i < |jobs[1..]|
      ensures jobs[1..][i] == jobs[i + 1]
    {
    }
  }

  lemma NoneStopped(workers: seq<WorkerState>, w: nat, p: WorkerState)
    requires w < |workers| && workers[w].phase != Stopped
    ensures Stopping(workers[w := p]) <==> Stopping(workers) || p.phase == Stopped
  {
    var now := workers[w := p];
    if Stopping(workers) {
      var v :| 0 <= v < |workers| && workers[v].phase == Stopped;
      assert now[v].phase == Stopped;
    }
    if p.phase == Stopped {
      assert now[w].phase == Stopped;
    }
  }

  lemma BatchInRange(cfg: Config, undispatched: seq<Job>, queue: seq<Job>, workers: seq<WorkerState>)
    requires FilesConserved(cfg, undispatched, queue, workers) && queue != [] && queue[0].Batch?
    ensures InRange(cfg, queue[0].files)
  {
    hide SumM;
    QueueHead(queue);
    forall i | 0 <= i < |queue[0].files|
      ensures queue[0].files[i] < |cfg.traces|
    {
      assert queue[0].files[i] in multiset(JobFiles(queue));
      RangeHas(|cfg.traces|, queue[0].files[i]);
    }
  }

  lemma WorkersOkUpdate(cfg: Config, workers: seq<WorkerState>, w: nat, p: WorkerState)
    requires WorkersOk(cfg, workers) && w < |workers| && WorkerOk(cfg, w, p)
    ensures WorkersOk(cfg, workers[w := p])
  {
    hide WorkerOk;
  }

  /** The results stay in order when a worker goes on, and when it stops and reports. */
  lemma ResultsUpdate(workers: seq<WorkerState>, w: nat, p: WorkerState, results: seq<nat>, gathered: seq<nat>)
    requires ResultsConserved(workers, results, gathered) && w < |workers| && workers[w].phase != Stopped
    requires SumN(StoppedFlags(workers[w := p])) == SumN(StoppedFlags(workers)) + (if p.phase == Stopped then 1 else 0)
    ensures ResultsConserved(workers[w := p], if p.phase == Stopped then results + [w] else results, gathered)
  {
    hide SumN;
    if p.phase == Stopped {
      assert multiset(results + [w]) + multiset(gathered) == (multiset(results) + multiset(gathered)) + multiset{w};
    }
  }

  lemma QueueTail(cfg: Config, s: State)
    requires Inv(cfg, s) && s.queue != []
    ensures var rest := s.queue[1..] + s.undispatched;
      Ordered(rest, Stopping(s.workers) || s.queue[0].Stop?)
    ensures s.queue[0].Batch? ==> s.queue[0].files != []
  {
    hide Stopping, FilesConserved, StopsConserved, ResultsConserved, MessagesConserved, WorkersOk;
    var jobs := s.queue + s.undispatched;
    assert jobs[0] == s.queue[0];
    assert jobs[1..] == s.queue[1..] + s.undispatched;
    OrderedTail(jobs, Stopping(s.workers));
  }

  lemma TakeBatch(cfg: Config, s: State, w: nat)
    requires Inv(cfg, s) && Enabled(cfg, s, Take(w)) && s.queue[0].Batch?
    ensures Inv(cfg, Next(cfg, s, Take(w)))
  {
    hide SumM, SumN, Ordered, JobFiles, StopCount, Stopping, ProcessAll, ResultsConserved, InRange;
    var t := Next(cfg, s, Take(w));
    var p := t.workers[w];
    assert WorkerOk(cfg, w, s.workers[w]);
    BatchInRange(cfg, s.undispatched, s.queue, s.workers);
    QueueTail(cfg, s);
    WorkersOkUpdate(cfg, s.workers, w, p);
    hide WorkersOk, WorkerOk;
    WorkerGains(s.workers, w, p, multiset(s.queue[0].files), multiset{});
    QueueHead(s.queue);
    ResultsUpdate(s.workers, w, p, s.results, s.gathered);
    NoneStopped(s.workers, w, p);
  }

  lemma TakeStop(cfg: Config, s: State, w: nat)
    requires Inv(cfg, s) && Enabled(cfg, s, Take(w)) && s.queue[0].Stop?
    ensures Inv(cfg, Next(cfg, s, Take(w)))
  {
    hide SumM, SumN, Ordered, JobFiles, StopCount, Stopping, ProcessAll, ResultsConserved, InRange;
    var t := Next(cfg, s, Take(w));
    var p := t.workers[w];
    assert WorkerOk(cfg, w, s.workers[w]);
    QueueTail(cfg, s);
    WorkersOkUpdate(cfg, s.workers, w, p);
    hide WorkersOk, WorkerOk;
    WorkerGains(s.workers, w, p, multiset{}, multiset{});
    QueueHead(s.queue);
    assert [] + JobFiles(s.queue[1..]) == JobFiles(s.queue[1..]);
    ResultsUpdate(s.workers, w, p, s.results, s.gathered);
    NoneStopped(s.workers, w, p);
  }

  lemma WorkerAdvances(cfg: Config, s: State, w: nat)
    requires WorkersOk(cfg, s.workers) && Enabled(cfg, s, Work(w))
    ensures var now := ProcessNext(cfg, s, w).workers;
      WorkersOk(cfg, now) && now == s.workers[w := now[w]] && now[w].phase != Stopped
    ensures var p, now := s.workers[w], ProcessNext(cfg, s, w).workers[w];
      && multiset(now.pending) + multiset(now.done) == multiset(p.pending) + multiset(p.done)
      && now.sent == p.sent + [Process(cfg, w, p.data, p.pending[0]).1]
  {
    hide ProcessAll, Process;
    var p := s.workers[w];
    var file := p.pending[0];
    assert WorkerOk(cfg, w, p);
    ProcessOneMore(cfg, w, p.done, file);
    assert p.pending == [file] + p.pending[1..];
    assert multiset(p.pending) == multiset{file} + multiset(p.pending[1..]);
    WorkersOkUpdate(cfg, s.workers, w, ProcessNext(cfg, s, w).workers[w]);
  }

  lemma KeepWork(cfg: Config, s: State, w: nat)
    requires Inv(cfg, s) && Enabled(cfg, s, Work(w))
    ensures Inv(cfg, Next(cfg, s, Work(w)))
  {
    hide SumM, SumN, Ordered, JobFiles, StopCount, Stopping, ProcessAll, Process, ResultsConserved, WorkersOk;
    var t := Next(cfg, s, Work(w));
    var p := t.workers[w];
    var message := Process(cfg, w, s.workers[w].data, s.workers[w].pending[0]).1;
    WorkerAdvances(cfg, s, w);
    assert multiset(p.sent) == multiset(s.workers[w].sent) + multiset{message};
    WorkerGains(s.workers, w, p, multiset{}, multiset{message});
    assert multiset(t.progress) == multiset(s.progress) + multiset{message};
    ResultsUpdate(s.workers, w, p, s.results, s.gathered);
    NoneStopped(s.workers, w, p);
  }

  /** Every step keeps the invariant, whoever takes it. */
  lemma KeepInv(cfg: Config, s: State, step: Step)
    requires Inv(cfg, s) && Enabled(cfg, s, step)
    ensures Inv(cfg, Next(cfg, s, step))
  {
    hide Inv, Next;
    match step
    case Dispatch => KeepDispatch(cfg, s);
    case Take(w) => if s.queue[0].Batch? { TakeBatch(cfg, s, w); } else { TakeStop(cfg, s, w); }
    case Work(w) => KeepWork(cfg, s, w);
    case Receive(i) => KeepReceive(cfg, s, i);
    case Gather(i) => KeepGather(cfg, s, i);
  }
}
