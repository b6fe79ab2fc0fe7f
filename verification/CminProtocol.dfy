/**
 The queues of afl-cmin.py as a step system: the dispatcher, any number of workers, and `main`
 collecting progress messages and results.  Any enabled step may come next, and the two queues that
 several processes write to may deliver in any order.
 */
module CminProtocol {
  import opened CminWorker

  datatype Job = Batch(files: seq<nat>) | Stop

  datatype Phase = Idle | Busy | Stopped

  /** A worker: the rest of its batch and its tables; `done` and `sent` record its past for the proofs. */
  datatype WorkerState = WorkerState(
    phase: Phase, pending: seq<nat>, data: WorkerData, done: seq<nat>, sent: seq<Message>)

  datatype State = State(
    undispatched: seq<Job>, queue: seq<Job>, workers: seq<WorkerState>,
    progress: seq<Message>, inbox: seq<Message>, results: seq<nat>, gathered: seq<nat>)

  datatype Step = Dispatch | Take(worker: nat) | Work(worker: nat) | Receive(at: nat) | Gather(at: nat)

  // ---------------------------------------------------------------- the job list

  /** `max(1, min(128, len(files) // workers))` */
  function ChunkSize(files: nat, workers: nat): (chunk: nat)
    requires workers > 0
    ensures 1 <= chunk <= 128
  {
    var share := files / workers;
    if share < 1 then 1 else if share < 128 then share else 128
  }

  function Range(lo: nat, hi: nat): (r: seq<nat>)
    requires lo <= hi
    ensures |r| == hi - lo && forall i | 0 <= i < |r| :: r[i] == lo + i
  {
    seq(hi - lo, i => lo + i)
  }

  /** The batches of `batched(enumerate(files), chunk)` from file `lo` on. */
  function Batches(lo: nat, hi: nat, chunk: nat): seq<Job>
    requires lo <= hi && 0 < chunk
    decreases hi - lo
  {
    if lo == hi then []
    else
      var mid := if hi - lo < chunk then hi else lo + chunk;
      [Batch(Range(lo, mid))] + Batches(mid, hi, chunk)
  }

  /** The generator loop of `batched`, taking `chunk` items at a time until none is left. */
  method Batched(files: nat, chunk: nat) returns (jobs: seq<Job>)
    requires 0 < chunk
    ensures jobs == Batches(0, files, chunk)
  {
    jobs := [];
    var lo := 0;
    while lo < files
      invariant lo <= files
      invariant jobs + Batches(lo, files, chunk) == Batches(0, files, chunk)
    {
      var mid := if files - lo < chunk then files else lo + chunk;
      assert jobs + ([Batch(Range(lo, mid))] + Batches(mid, files, chunk))
        == jobs + [Batch(Range(lo, mid))] + Batches(mid, files, chunk);
      jobs := jobs + [Batch(Range(lo, mid))];
      lo := mid;
    }
    assert jobs + [] == jobs;
  }

  function Stops(count: nat): (jobs: seq<Job>)
    ensures |jobs| == count && forall i | 0 <= i < |jobs| :: jobs[i] == Stop
  {
    seq(count, _ => Stop)
  }

  function Jobs(cfg: Config): seq<Job>
    requires cfg.workers > 0
  {
    Batches(0, |cfg.traces|, ChunkSize(|cfg.traces|, cfg.workers)) + Stops(cfg.workers)
  }

  // ---------------------------------------------------------------- the steps

  function Init(cfg: Config): State
    requires cfg.workers > 0
  {
    State(Jobs(cfg), [], seq(cfg.workers, _ => WorkerState(Idle, [], EmptyWorker(cfg), [], [])), [], [], [], [])
  }

  predicate Enabled(cfg: Config, s: State, step: Step) {
    match step
    case Dispatch => s.undispatched != []
    case Take(w) => w < |s.workers| && s.workers[w].phase == Idle && s.queue != []
    case Work(w) => w < |s.workers| && s.workers[w].phase == Busy && s.workers[w].pending != []
                    && s.workers[w].pending[0] < |cfg.traces|
    case Receive(i) => |s.inbox| < |cfg.traces| && i < |s.progress|
    case Gather(i) => |s.inbox| == |cfg.traces| && s.undispatched == []
                      && |s.gathered| < cfg.workers && i < |s.results|
  }

  function Without<T>(s: seq<T>, i: nat): (r: seq<T>)
    requires i < |s|
    ensures multiset(r) + multiset{s[i]} == multiset(s) && |r| == |s| - 1
  {
    assert s == s[..i] + [s[i]] + s[i + 1..];
    s[..i] + s[i + 1..]
  }

  function TakeJob(s: State, w: nat): State
    requires w < |s.workers| && s.queue != []
  {
    var rest := s.(queue := s.queue[1..]);
    match s.queue[0]
    case Batch(files) => rest.(workers := s.workers[w := s.workers[w].(phase := Busy, pending := files)])
    case Stop => rest.(workers := s.workers[w := s.workers[w].(phase := Stopped)], results := s.results + [w])
  }

  function ProcessNext(cfg: Config, s: State, w: nat): State
    requires w < |s.workers| && s.workers[w].pending != [] && s.workers[w].pending[0] < |cfg.traces|
  {
    var p := s.workers[w];
    var (data, message) := Process(cfg, w, p.data, p.pending[0]);
    var rest := p.pending[1..];
    var now := WorkerState(if rest == [] then Idle else Busy, rest, data, p.done + [p.pending[0]], p.sent + [message]);
    s.(workers := s.workers[w := now], progress := s.progress + [message])
  }

  function Next(cfg: Config, s: State, step: Step): State
    requires Enabled(cfg, s, step)
  {
    match step
    case Dispatch => s.(undispatched := s.undispatched[1..], queue := s.queue + [s.undispatched[0]])
    case Take(w) => TakeJob(s, w)
    case Work(w) => ProcessNext(cfg, s, w)
    case Receive(i) => s.(progress := Without(s.progress, i), inbox := s.inbox + [s.progress[i]])
    case Gather(i) => s.(results := Without(s.results, i), gathered := s.gathered + [s.results[i]])
  }

  /** `steps`, each enabled when its turn comes, lead from `s` to `t`. */
  ghost predicate RunsTo(cfg: Config, s: State, steps: seq<Step>, t: State)
    decreases |steps|
  {
    if steps == [] then s == t
    else Enabled(cfg, s, steps[0]) && RunsTo(cfg, Next(cfg, s, steps[0]), steps[1..], t)
  }

  /** Everything has been received. */
  predicate Complete(cfg: Config, s: State) {
    |s.inbox| == |cfg.traces| && |s.gathered| == cfg.workers
  }
}
