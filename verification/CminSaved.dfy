/** How many traces are saved and which files crash, over all workers and for any schedule. */
module CminSaved {
  import opened CminWorker
  import opened CminWorkerLaws
  import opened CminWorkerExact
  import opened CminProtocol
  import opened CminProtocolLaws
  import opened CminResult
  import opened CminTotals

  // ---------------------------------------------------------------- the number of saved traces

  lemma {:induction false} SavedAreRest(inbox: seq<Message>)
    ensures |SavedPlaces(inbox)| + multiset(inbox)[Nothing] == |inbox|
    decreases |inbox|
  {
    if inbox != [] {
      var last := |inbox| - 1;
      SavedAreRest(inbox[..last]);
      SavedPlacesSnoc(inbox, last);
      assert inbox[..last + 1] == inbox;
      assert inbox == inbox[..last] + [inbox[last]];
    }
  }

  lemma FreshAreSaved(cfg: Config, w: nat, files: seq<nat>, sent: seq<Message>)
    requires cfg.Valid() && InRange(cfg, files) && sent == ProcessAll(cfg, w, files).1
    ensures |sent| == |files| && |SavedPlaces(sent)| == FreshCount(cfg, files)
  {
    hide Fresh, Packed;
    WorkerExactly(cfg, w, files);
    assert SavedPlaces(sent) == FreshPlaces(cfg, files);
  }

  /** Element by element, what holds of the bags holds of their sum. */
  lemma {:induction false} SumOfRests<T>(xs: seq<multiset<T>>, e: T, rests: seq<nat>)
    requires |rests| == |xs| && forall i | 0 <= i < |xs| :: rests[i] + xs[i][e] == |xs[i]|
    ensures SumN(rests) + SumM(xs)[e] == |SumM(xs)|
    decreases |xs|
  {
    if xs != [] {
      SumOfRests(xs[1..], e, rests[1..]);
    }
  }

  /** The number of fresh files of each worker. */
  ghost function FreshCounts(cfg: Config, workers: seq<WorkerState>): (r: seq<nat>)
    requires forall w | 0 <= w < |workers| :: InRange(cfg, workers[w].done)
    ensures |r| == |workers| && forall w | 0 <= w < |r| :: r[w] == FreshCount(cfg, workers[w].done)
  {
    seq(|workers|, w requires 0 <= w < |workers| => FreshCount(cfg, workers[w].done))
  }

  /** `effective` is the number of fresh files, over all workers. */
  lemma EffectiveIsFresh(cfg: Config, s: State)
    requires cfg.Valid() && Inv(cfg, s) && Complete(cfg, s)
    ensures forall w | 0 <= w < |s.workers| :: InRange(cfg, s.workers[w].done)
    ensures |SavedPlaces(s.inbox)| == SumN(FreshCounts(cfg, s.workers))
  {
    hide Inv, SumM, SumN, Complete, SavedPlaces, FreshCount, ProcessAll, ReadsBack;
    forall w | 0 <= w < |s.workers|
      ensures InRange(cfg, s.workers[w].done)
      ensures FreshCount(cfg, s.workers[w].done) + Sent(s.workers)[w][Nothing] == |Sent(s.workers)[w]|
    {
      WorkerMessages(cfg, s, w);
      FreshAreSaved(cfg, w, s.workers[w].done, s.workers[w].sent);
      SavedAreRest(s.workers[w].sent);
    }
    AllReceived(cfg, s);
    SavedAreRest(s.inbox);
    SumOfRests(Sent(s.workers), Nothing, FreshCounts(cfg, s.workers));
    assert |multiset(s.inbox)| == |s.inbox|;
  }

  // ---------------------------------------------------------------- the crash list

  lemma {:induction false} CrashesAre(cfg: Config, files: seq<nat>, f: nat)
    requires InRange(cfg, files) && f < |cfg.traces|
    ensures multiset(CrashesIn(cfg, files))[f] == if cfg.traces[f] == [] then multiset(files)[f] else 0
    decreases |files|
  {
    if files != [] {
      var last := |files| - 1;
      CrashesAre(cfg, files[..last], f);
      assert files == files[..last] + [files[last]];
    }
  }

  lemma {:induction false} FlatHas(lists: seq<seq<nat>>, bags: seq<multiset<nat>>, f: nat, keep: bool)
    requires |bags| == |lists|
    requires forall i | 0 <= i < |lists| :: multiset(lists[i])[f] == if keep then bags[i][f] else 0
    ensures multiset(Flat(lists))[f] == if keep then SumM(bags)[f] else 0
    decreases |lists|
  {
    if lists != [] {
      FlatHas(lists[1..], bags[1..], f, keep);
    }
  }

  lemma WorkerCrashes(cfg: Config, s: State, w: nat)
    requires cfg.Valid() && Inv(cfg, s) && w < |s.workers|
    ensures InRange(cfg, s.workers[w].done)
    ensures s.workers[w].data.crashes == CrashesIn(cfg, s.workers[w].done)
  {
    hide SumM, SumN, FilesConserved, MessagesConserved, Ordered, StopsConserved, ResultsConserved, ProcessAll,
      CrashesIn, Packed;
    assert WorkerOk(cfg, w, s.workers[w]);
    WorkerExactly(cfg, w, s.workers[w].done);
  }

  /** The crash list of `main` holds every file with an empty trace once, and no other. */
  lemma CrashesAreAll(cfg: Config, s: State, f: nat)
    requires cfg.Valid() && Inv(cfg, s) && Complete(cfg, s) && f < |cfg.traces|
    ensures forall i | 0 <= i < |s.gathered| :: s.gathered[i] < |s.workers|
    ensures multiset(Flat(CrashLists(Arrived(s))))[f] == if cfg.traces[f] == [] then 1 else 0
  {
    hide Inv, SumM, Complete, Range, CrashesIn, Flat;
    DoneOnce(cfg, s);
    var bags := Pick(Held(s.workers), s.gathered);
    forall i | 0 <= i < |s.gathered|
      ensures multiset(CrashLists(Arrived(s))[i])[f] == if cfg.traces[f] == [] then bags[i][f] else 0
    {
      WorkerCrashes(cfg, s, s.gathered[i]);
      CrashesAre(cfg, s.workers[s.gathered[i]].done, f);
    }
    FlatHas(CrashLists(Arrived(s)), bags, f, cfg.traces[f] == []);
    CountInRange(|cfg.traces|, f);
  }
}
