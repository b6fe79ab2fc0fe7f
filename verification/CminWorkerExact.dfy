/** What a worker of afl-cmin.py saves and reports, exactly: from the list of its files alone. */
module CminWorkerExact {
  import opened Bytes
  import opened CminPack
  import opened CminWorker
  import opened CminWorkerLaws

  /** Some tuple of file `j` of the list is in no earlier file of the list whose index is as small. */
  ghost predicate Fresh(cfg: Config, files: seq<nat>, j: nat)
    requires InRange(cfg, files) && j < |files|
  {
    exists t :: FreshTuple(cfg, files, j, t)
  }

  ghost predicate FreshTuple(cfg: Config, files: seq<nat>, j: nat, t: nat)
    requires InRange(cfg, files) && j < |files|
  {
    t in cfg.traces[files[j]] && forall i | 0 <= i < j && t in cfg.traces[files[i]] :: files[j] < files[i]
  }

  /** The traces of the fresh files, in the order of the list, packed one after the other. */
  ghost function Packed(cfg: Config, files: seq<nat>): seq<Byte>
    requires InRange(cfg, files)
    decreases |files|
  {
    if files == [] then []
    else
      var last := |files| - 1;
      Packed(cfg, files[..last]) + if Fresh(cfg, files, last) then Encode(cfg.traces[files[last]], cfg.itemSize) else []
  }

  /** How many files of the list are fresh. */
  ghost function FreshCount(cfg: Config, files: seq<nat>): nat
    requires InRange(cfg, files)
  {
    |FreshPlaces(cfg, files)|
  }

  ghost function FreshPlaces(cfg: Config, files: seq<nat>): (r: set<nat>)
    requires InRange(cfg, files)
    ensures forall j: nat :: j in r <==> j < |files| && Fresh(cfg, files, j)
  {
    set j: nat | 0 <= j < |files| && Fresh(cfg, files, j)
  }

  /** The files of the list whose trace is empty, in the order of the list. */
  function CrashesIn(cfg: Config, files: seq<nat>): seq<nat>
    requires InRange(cfg, files)
  {
    if files == [] then []
    else
      var last := |files| - 1;
      CrashesIn(cfg, files[..last]) + if cfg.traces[files[last]] == [] then [files[last]] else []
  }

  lemma FreshEarlier(cfg: Config, files: seq<nat>, n: nat, j: nat)
    requires InRange(cfg, files) && j < n <= |files|
    ensures Fresh(cfg, files[..n], j) <==> Fresh(cfg, files, j)
  {
    assert forall i | 0 <= i <= j :: files[..n][i] == files[i];
    forall t
      ensures FreshTuple(cfg, files[..n], j, t) <==> FreshTuple(cfg, files, j, t)
    {
    }
  }

  /** A worker's table improves for a file exactly when the file is fresh. */
  lemma ImprovesIsFresh(cfg: Config, files: seq<nat>, best: seq<nat>)
    requires cfg.Valid() && InRange(cfg, files) && files != [] && |best| == cfg.maxTuple
    requires forall t | 0 <= t < |best| :: IsBest(cfg, files[..|files| - 1], t, best[t])
    ensures var last := |files| - 1;
      Improves(best, cfg.traces[files[last]], files[last]) <==> Fresh(cfg, files, last)
  {
    hide IsBest;
    var last := |files| - 1;
    var file, trace := files[last], cfg.traces[files[last]];
    forall t | t in trace
      ensures t < |best| && (file < best[t] <==> FreshTuple(cfg, files, last, t))
    {
      LeastDecides(cfg, files, t, best[t]);
    }
    if Improves(best, trace, file) {
      var i :| 0 <= i < |trace| && trace[i] < |best| && file < best[trace[i]];
      assert FreshTuple(cfg, files, last, trace[i]);
    }
    if Fresh(cfg, files, last) {
      var t :| FreshTuple(cfg, files, last, t);
      ImprovesAt(best, trace, t, file);
    }
  }

  lemma LeastDecides(cfg: Config, files: seq<nat>, t: nat, v: nat)
    requires cfg.Valid() && InRange(cfg, files) && files != [] && t in cfg.traces[files[|files| - 1]]
    requires IsBest(cfg, files[..|files| - 1], t, v)
    ensures files[|files| - 1] < v <==> FreshTuple(cfg, files, |files| - 1, t)
  {
    var last := |files| - 1;
    var before := files[..last];
    assert forall i | 0 <= i < last :: before[i] == files[i] && files[i] in before;
    if v in before {
      var i :| 0 <= i < last && before[i] == v;
      assert files[i] == v;
    }
  }

  /**
   Message `j` reports a saved trace exactly when file `j` is fresh, with the place where the packed
   traces before it end; the pack is the packed traces and nothing else; the crash list is the files
   with empty traces.
   */
  lemma {:induction false} WorkerExactly(cfg: Config, worker: nat, files: seq<nat>)
    requires cfg.Valid() && InRange(cfg, files)
    ensures var (data, messages) := ProcessAll(cfg, worker, files);
      && data.pack == Packed(cfg, files) && data.crashes == CrashesIn(cfg, files) && |messages| == |files|
      && forall j | 0 <= j < |files| :: messages[j] == MessageOf(cfg, worker, files, j)
    decreases |files|
  {
    if files != [] {
      hide Process, ProcessAll, Fresh, IsBest;
      var last := |files| - 1;
      var before, file := files[..last], files[last];
      assert files == before + [file];
      var (data, messages) := ProcessAll(cfg, worker, before);
      WorkerExactly(cfg, worker, before);
      ProcessOneMore(cfg, worker, before, file);
      BestTable(cfg, worker, before);
      ImprovesIsFresh(cfg, files, data.best);
      ProcessedFile(cfg, worker, data, file);
      forall j | 0 <= j < last
        ensures MessageOf(cfg, worker, before, j) == MessageOf(cfg, worker, files, j)
      {
        FreshEarlier(cfg, files, last, j);
        assert before[..j] == files[..j];
      }
    }
  }

  /** What the worker says about file `j` of its list. */
  ghost function MessageOf(cfg: Config, worker: nat, files: seq<nat>, j: nat): Message
    requires InRange(cfg, files) && j < |files|
  {
    if Fresh(cfg, files, j)
    then Saved(files[j], Entry(worker, |Packed(cfg, files[..j])|, |cfg.traces[files[j]]|))
    else Nothing
  }

  lemma ProcessedFile(cfg: Config, worker: nat, w: WorkerData, file: nat)
    requires file < |cfg.traces|
    ensures var (now, message) := Process(cfg, worker, w, file);
      var trace := cfg.traces[file];
      && now.crashes == w.crashes + (if trace == [] then [file] else [])
      && now.pack == w.pack + (if Improves(w.best, trace, file) then Encode(trace, cfg.itemSize) else [])
      && message == if Improves(w.best, trace, file) then Saved(file, Entry(worker, |w.pack|, |trace|)) else Nothing
  {
    assert w.pack + [] == w.pack && w.crashes + [] == w.crashes;
  }

  /** A file is saved at most when it has a tuple, and the first file of the list always is then. */
  lemma FreshNeedsTuple(cfg: Config, files: seq<nat>, j: nat)
    requires InRange(cfg, files) && j < |files|
    ensures Fresh(cfg, files, j) ==> cfg.traces[files[j]] != []
    ensures j == 0 && cfg.traces[files[j]] != [] ==> Fresh(cfg, files, j)
  {
    if cfg.traces[files[j]] != [] && j == 0 {
      assert cfg.traces[files[0]][0] in cfg.traces[files[0]];
      assert FreshTuple(cfg, files, 0, cfg.traces[files[0]][0]);
    }
  }

  /** A file that comes again, or after a smaller one with the same tuples, is not saved. */
  lemma RepeatedNotFresh(cfg: Config, files: seq<nat>, i: nat, j: nat)
    requires InRange(cfg, files) && i < j < |files| && files[i] <= files[j]
    requires forall t | t in cfg.traces[files[j]] :: t in cfg.traces[files[i]]
    ensures !Fresh(cfg, files, j)
  {
  }
}
