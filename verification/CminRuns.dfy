/** Whole runs of the queue protocol: they start right, never get stuck, and all take equally long. */
module CminRuns {
  import opened Arithmetic
  import opened CminWorker
  import opened CminWorkerLaws
  import opened CminProtocol
  import opened CminProtocolLaws

  // ---------------------------------------------------------------- the start

  lemma RangeSplit(lo: nat, mid: nat, hi: nat)
    requires lo <= mid <= hi
    ensures Range(lo, hi) == Range(lo, mid) + Range(mid, hi)
  {
  }

  /** The batches hand out every file once, in order; none is empty. */
  lemma {:induction false} BatchesCover(lo: nat, hi: nat, chunk: nat)
    requires lo <= hi && 0 < chunk
    ensures var jobs := Batches(lo, hi, chunk);
      && JobFiles(jobs) == Range(lo, hi) && StopCount(jobs) == 0
      && (forall i | 0 <= i < |jobs| :: jobs[i].Batch? && 0 < |jobs[i].files| <= chunk)
      && forall i | 0 <= i < |jobs| - 1 :: |jobs[i].files| == chunk
    decreases hi - lo
  {
    if lo < hi {
      var mid := if hi - lo < chunk then hi else lo + chunk;
      var jobs := Batches(lo, hi, chunk);
      BatchesCover(mid, hi, chunk);
      RangeSplit(lo, mid, hi);
      assert jobs[1..] == Batches(mid, hi, chunk);
    }
  }

  /** Batches are as large as they can be for every worker to have one, but of 1 to 128 files. */
  lemma ChunkIsLargest(files: nat, workers: nat, c: nat)
    requires 0 < workers && 1 <= c <= 128
    ensures c <= ChunkSize(files, workers) <==> c == 1 || c * workers <= files
  {
    var q := files / workers;
    Multiple(files, workers);
    if c < q {
      Apart(q, c, workers);
    } else if q < c {
      Apart(c, q, workers);
    }
  }

  lemma {:induction false} StopsOnly(jobs: seq<Job>)
    requires forall i | 0 <= i < |jobs| :: jobs[i] == Stop
    ensures JobFiles(jobs) == [] && StopCount(jobs) == |jobs|
    decreases |jobs|
  {
    if jobs != [] {
      StopsOnly(jobs[1..]);
    }
  }

  lemma InitJobs(cfg: Config)
    requires cfg.workers > 0
    ensures JobFiles(Jobs(cfg)) == Range(0, |cfg.traces|) && StopCount(Jobs(cfg)) == cfg.workers
    ensures Ordered(Jobs(cfg), false)
  {
    hide Batches, JobFiles, StopCount, Range;
    var n, chunk := |cfg.traces|, ChunkSize(|cfg.traces|, cfg.workers);
    BatchesCover(0, n, chunk);
    StopsOnly(Stops(cfg.workers));
    JobFilesAppend(Batches(0, n, chunk), Stops(cfg.workers));
    assert Range(0, n) + [] == Range(0, n);
  }

  lemma InitSums(cfg: Config)
    requires cfg.Valid()
    ensures var workers := Init(cfg).workers;
      SumM(Held(workers)) == multiset{} && SumM(Sent(workers)) == multiset{} && SumN(StoppedFlags(workers)) == 0
  {
    hide Jobs, SumM, SumN;
    var workers := Init(cfg).workers;
    forall w | 0 <= w < |workers|
      ensures Held(workers)[w] == multiset{} && Sent(workers)[w] == multiset{}
    {
    }
    SumMZero(Held(workers));
    SumMZero(Sent(workers));
    SumNZero(StoppedFlags(workers));
  }

  lemma InitWorkers(cfg: Config)
    requires cfg.Valid()
    ensures WorkersOk(cfg, Init(cfg).workers) && !Stopping(Init(cfg).workers)
    ensures ResultsConserved(Init(cfg).workers, [], [])
  {
    hide Jobs, SumN;
    InitSums(cfg);
  }

  lemma InitInv(cfg: Config)
    requires cfg.Valid()
    ensures Inv(cfg, Init(cfg))
  {
    hide Jobs, Ordered, SumM, SumN, WorkersOk, ResultsConserved, Stopping;
    var s := Init(cfg);
    InitJobs(cfg);
    InitSums(cfg);
    InitWorkers(cfg);
    assert JobFiles([]) == [] && StopCount([]) == 0;
    assert s.queue + s.undispatched == s.undispatched;
  }

  // ---------------------------------------------------------------- progress

  /** What is still to be done, step by step. */
  function StepsLeft(cfg: Config, s: State): int {
    2 * |s.undispatched| + |s.queue|
    + 2 * (|JobFiles(s.undispatched)| + |JobFiles(s.queue)| + SumN(PendingCounts(s.workers)))
    + |s.progress| + (cfg.workers - |s.gathered|)
  }

  lemma WorkerPending(workers: seq<WorkerState>, w: nat, p: WorkerState)
    requires w < |workers|
    ensures SumN(PendingCounts(workers[w := p])) == SumN(PendingCounts(workers)) + |p.pending| - |workers[w].pending|
  {
    hide SumM, SumN;
    WorkerUpdate(workers, w, p);
  }

  /** Every step does exactly one unit of the work left. */
  lemma StepCounts(cfg: Config, s: State, step: Step)
    requires Inv(cfg, s) && Enabled(cfg, s, step)
    ensures StepsLeft(cfg, Next(cfg, s, step)) == StepsLeft(cfg, s) - 1
  {
    hide SumN, JobFiles, StopCount, FilesConserved, StopsConserved, ResultsConserved, MessagesConserved, Ordered,
      Process, ProcessAll;
    var t := Next(cfg, s, step);
    match step
    case Dispatch =>
      QueueHead(s.undispatched);
      JobFilesAppend(s.queue, [s.undispatched[0]]);
    case Take(w) =>
      assert WorkerOk(cfg, w, s.workers[w]);
      QueueHead(s.queue);
      WorkerPending(s.workers, w, t.workers[w]);
    case Work(w) =>
      WorkerPending(s.workers, w, t.workers[w]);
    case Receive(i) =>
    case Gather(i) =>
  }

  lemma OnlyStops(queue: seq<Job>, undispatched: seq<Job>)
    requires Ordered(queue + undispatched, true)
    ensures JobFiles(queue) == [] && JobFiles(undispatched) == []
  {
    var jobs := queue + undispatched;
    forall i | 0 <= i < |queue|
      ensures queue[i] == Stop
    {
      assert jobs[i].Stop?;
    }
    forall i | 0 <= i < |undispatched|
      ensures undispatched[i] == Stop
    {
      assert jobs[|queue| + i].Stop?;
    }
    StopsOnly(queue);
    StopsOnly(undispatched);
  }

  /** When all workers have stopped, every file has been processed. */
  lemma AllStopped(cfg: Config, s: State)
    requires cfg.Valid() && Inv(cfg, s) && forall w | 0 <= w < |s.workers| :: s.workers[w].phase == Stopped
    ensures JobFiles(s.undispatched) == [] && JobFiles(s.queue) == []
    ensures SumM(Held(s.workers)) == multiset(Range(0, |cfg.traces|))
    ensures forall w | 0 <= w < |s.workers| :: s.workers[w].pending == []
  {
    hide SumM, SumN, ProcessAll, ResultsConserved, MessagesConserved, StopsConserved, Range;
    assert s.workers[0].phase == Stopped;
    assert Stopping(s.workers);
    OnlyStops(s.queue, s.undispatched);
    forall w | 0 <= w < |s.workers|
      ensures s.workers[w].pending == []
    {
      assert WorkerOk(cfg, w, s.workers[w]);
    }
    assert multiset(JobFiles(s.undispatched)) == multiset{} && multiset(JobFiles(s.queue)) == multiset{};
  }

  lemma {:induction false} SameSizes<A, B>(xs: seq<multiset<A>>, ys: seq<multiset<B>>)
    requires |xs| == |ys| && forall i | 0 <= i < |xs| :: |xs[i]| == |ys[i]|
    ensures |SumM(xs)| == |SumM(ys)|
    decreases |xs|
  {
    if xs != [] {
      SameSizes(xs[1..], ys[1..]);
    }
  }

  /** When all workers have stopped, every message has been sent. */
  lemma AllSent(cfg: Config, s: State)
    requires cfg.Valid() && Inv(cfg, s) && forall w | 0 <= w < |s.workers| :: s.workers[w].phase == Stopped
    ensures |s.progress| + |s.inbox| == |cfg.traces|
  {
    hide SumM, SumN, ProcessAll, ResultsConserved, StopsConserved, FilesConserved, Range;
    AllStopped(cfg, s);
    forall w | 0 <= w < |s.workers|
      ensures |Held(s.workers)[w]| == |Sent(s.workers)[w]|
    {
      assert WorkerOk(cfg, w, s.workers[w]);
    }
    SameSizes(Held(s.workers), Sent(s.workers));
    assert |multiset(Range(0, |cfg.traces|))| == |cfg.traces|;
    assert |multiset(s.progress) + multiset(s.inbox)| == |s.progress| + |s.inbox|;
  }

  /** As long as not everything has been received, some process can go on. */
  lemma NotStuck(cfg: Config, s: State) returns (step: Step)
    requires cfg.Valid() && Inv(cfg, s) && !Complete(cfg, s)
    ensures Enabled(cfg, s, step)
  {
    hide SumM, SumN, ProcessAll, FilesConserved, MessagesConserved, JobFiles, StopCount, Ordered;
    if s.undispatched != [] {
      step := Dispatch;
    } else if w :| 0 <= w < |s.workers| && s.workers[w].phase == Busy {
      assert WorkerOk(cfg, w, s.workers[w]);
      step := Work(w);
    } else if w :| 0 <= w < |s.workers| && s.workers[w].phase == Idle {
      StopsRemain(cfg, s, w);
      step := Take(w);
    } else {
      assert forall w | 0 <= w < |s.workers| :: s.workers[w].phase == Stopped;
      AllSent(cfg, s);
      if |s.inbox| < |cfg.traces| {
        step := Receive(0);
      } else {
        SumNAllOne(StoppedFlags(s.workers));
        step := Gather(0);
      }
    }
  }

  /** A worker that has not stopped has a sentinel left to take. */
  lemma StopsRemain(cfg: Config, s: State, w: nat)
    requires Inv(cfg, s) && s.undispatched == [] && w < |s.workers| && s.workers[w].phase != Stopped
    ensures s.queue != []
  {
    hide SumM, SumN, ProcessAll, FilesConserved, MessagesConserved, ResultsConserved, JobFiles;
    SumNBound(StoppedFlags(s.workers), w);
    assert StopCount([]) == 0;
  }

  /** A completed state has nothing left to do. */
  lemma CompleteIsDone(cfg: Config, s: State)
    requires cfg.Valid() && Inv(cfg, s) && Complete(cfg, s)
    ensures forall w | 0 <= w < |s.workers| :: s.workers[w].phase == Stopped
    ensures s.progress == [] && s.results == []
  {
    hide SumM, SumN, ProcessAll, FilesConserved, MessagesConserved, JobFiles, StopCount, Ordered;
    SumNAtMost(StoppedFlags(s.workers));
    forall w | 0 <= w < |s.workers|
      ensures s.workers[w].phase == Stopped
    {
      if s.workers[w].phase != Stopped {
        SumNBound(StoppedFlags(s.workers), w);
      }
    }
    AllSent(cfg, s);
  }

  // ---------------------------------------------------------------- runs

  lemma {:induction false} RunKeeps(cfg: Config, s: State, steps: seq<Step>, t: State)
    requires Inv(cfg, s) && RunsTo(cfg, s, steps, t)
    ensures Inv(cfg, t) && StepsLeft(cfg, t) == StepsLeft(cfg, s) - |steps|
    decreases |steps|
  {
    hide Inv, Next, StepsLeft, Enabled;
    if steps != [] {
      KeepInv(cfg, s, steps[0]);
      StepCounts(cfg, s, steps[0]);
      RunKeeps(cfg, Next(cfg, s, steps[0]), steps[1..], t);
    }
  }

  /**
   Safety of every run: whatever the number of workers and the interleaving, the invariant holds; and
   a run that can go no further has received one progress message for every file and one result from
   every worker.
   */
  lemma RunInvariant(cfg: Config, steps: seq<Step>, t: State)
    requires cfg.Valid() && RunsTo(cfg, Init(cfg), steps, t)
    ensures Inv(cfg, t)
    ensures (forall step :: !Enabled(cfg, t, step)) <==> Complete(cfg, t)
  {
    hide Inv, Enabled, Init, RunsTo;
    InitInv(cfg);
    RunKeeps(cfg, Init(cfg), steps, t);
    if !Complete(cfg, t) {
      var step := NotStuck(cfg, t);
    } else {
      NothingEnabled(cfg, t);
    }
  }

  lemma NothingEnabled(cfg: Config, s: State)
    requires cfg.Valid() && Inv(cfg, s) && Complete(cfg, s)
    ensures forall step :: !Enabled(cfg, s, step)
  {
    CompleteIsDone(cfg, s);
    CompleteQueues(cfg, s);
  }

  lemma CompleteQueues(cfg: Config, s: State)
    requires cfg.Valid() && Inv(cfg, s) && Complete(cfg, s)
    ensures s.undispatched == []
  {
    hide SumM, SumN, ProcessAll, FilesConserved, MessagesConserved, Ordered, JobFiles;
    CompleteIsDone(cfg, s);
    SumNAllOne(StoppedFlags(s.workers));
    if s.undispatched != [] {
      assert s.workers[0].phase == Stopped;
      StopsAreStops(cfg, s);
    }
  }

  lemma StopsAreStops(cfg: Config, s: State)
    requires cfg.Valid() && Inv(cfg, s) && Stopping(s.workers)
    ensures s.undispatched != [] ==> 0 < StopCount(s.undispatched)
    ensures s.queue != [] ==> 0 < StopCount(s.queue)
  {
    hide SumM, SumN, ProcessAll, FilesConserved, MessagesConserved, ResultsConserved, JobFiles, Stopping;
    var jobs := s.queue + s.undispatched;
    assert s.undispatched != [] ==> jobs[|s.queue|] == s.undispatched[0];
    assert s.queue != [] ==> jobs[0] == s.queue[0];
  }

  /**
   Every run that comes to an end takes the same number of steps: two per job, two per file and one
   result per worker.
   */
  lemma RunLength(cfg: Config, steps: seq<Step>, t: State)
    requires cfg.Valid() && RunsTo(cfg, Init(cfg), steps, t) && Complete(cfg, t)
    ensures |steps| == 2 * |Jobs(cfg)| + 2 * |cfg.traces| + cfg.workers
  {
    hide Inv, Enabled, RunsTo, SumN, SumM;
    InitInv(cfg);
    RunKeeps(cfg, Init(cfg), steps, t);
    InitWork(cfg);
    CompleteWork(cfg, t);
  }

  lemma InitWork(cfg: Config)
    requires cfg.Valid()
    ensures StepsLeft(cfg, Init(cfg)) == 2 * |Jobs(cfg)| + 2 * |cfg.traces| + cfg.workers
  {
    hide Jobs, SumN, Ordered;
    InitJobs(cfg);
    SumNZero(PendingCounts(Init(cfg).workers));
    assert JobFiles([]) == [];
  }

  lemma CompleteWork(cfg: Config, s: State)
    requires cfg.Valid() && Inv(cfg, s) && Complete(cfg, s)
    ensures StepsLeft(cfg, s) == 0
  {
    hide SumN, SumM, Ordered, MessagesConserved, FilesConserved;
    CompleteIsDone(cfg, s);
    CompleteQueues(cfg, s);
    AllStopped(cfg, s);
    SumNZero(PendingCounts(s.workers));
    QueueEmpty(cfg, s);
  }

  lemma QueueEmpty(cfg: Config, s: State)
    requires cfg.Valid() && Inv(cfg, s) && Complete(cfg, s) && s.undispatched == []
    ensures s.queue == []
  {
    hide SumM, SumN, ProcessAll, FilesConserved, MessagesConserved, JobFiles, StopCount;
    CompleteIsDone(cfg, s);
    SumNAllOne(StoppedFlags(s.workers));
    assert s.workers[0].phase == Stopped;
    StopsAreStops(cfg, s);
  }

  /** When everything has been received, every queue is empty and every worker has stopped with nothing left to do. */
  lemma CompleteIsEmpty(cfg: Config, s: State)
    requires cfg.Valid() && Inv(cfg, s) && Complete(cfg, s)
    ensures s.undispatched == [] && s.queue == [] && s.progress == [] && s.results == []
    ensures forall w | 0 <= w < |s.workers| :: s.workers[w].phase == Stopped && s.workers[w].pending == []
  {
    hide SumN, SumM, Inv, Complete;
    CompleteIsDone(cfg, s);
    CompleteQueues(cfg, s);
    QueueEmpty(cfg, s);
    AllStopped(cfg, s);
  }
}
