/** What a worker's tables mean after any sequence of files. */
module CminWorkerLaws {
  import opened Bytes
  import opened Wrappers
  import opened CminPack
  import opened CminWorker

  ghost predicate InRange(cfg: Config, files: seq<nat>) {
    forall i | 0 <= i < |files| :: files[i] < |cfg.traces|
  }

  /** The worker after the given files, in that order, and the messages it sent. */
  function ProcessAll(cfg: Config, worker: nat, files: seq<nat>): (r: (WorkerData, seq<Message>))
    requires InRange(cfg, files)
    ensures |r.1| == |files|
  {
    if files == [] then (EmptyWorker(cfg), [])
    else
      var last := |files| - 1;
      var (data, messages) := ProcessAll(cfg, worker, files[..last]);
      var (now, message) := Process(cfg, worker, data, files[last]);
      (now, messages + [message])
  }

  /** One more file. */
  lemma ProcessOneMore(cfg: Config, worker: nat, files: seq<nat>, file: nat)
    requires InRange(cfg, files) && file < |cfg.traces|
    ensures InRange(cfg, files + [file])
    ensures var (data, messages) := ProcessAll(cfg, worker, files);
      var (now, message) := Process(cfg, worker, data, file);
      ProcessAll(cfg, worker, files + [file]) == (now, messages + [message])
  {
    hide Process;
    assert (files + [file])[..|files|] == files;
  }

  /** `v` is the least of `files` whose trace holds `t`, or the no-file mark when there is none. */
  ghost predicate IsBest(cfg: Config, files: seq<nat>, t: nat, v: nat)
    requires InRange(cfg, files)
  {
    if v == cfg.noFile then forall f | f in files :: t !in cfg.traces[f]
    else v in files && t in cfg.traces[v] && forall f | f in files && t in cfg.traces[f] :: v <= f
  }

  lemma {:induction false} BestTable(cfg: Config, worker: nat, files: seq<nat>)
    requires cfg.Valid() && InRange(cfg, files)
    ensures var best := ProcessAll(cfg, worker, files).0.best;
      |best| == cfg.maxTuple && forall t | 0 <= t < |best| :: IsBest(cfg, files, t, best[t])
    decreases |files|
  {
    if files != [] {
      hide Process, IsBest, ProcessAll;
      var before, file := files[..|files| - 1], files[|files| - 1];
      assert files == before + [file];
      BestTable(cfg, worker, before);
      ProcessOneMore(cfg, worker, before, file);
      BestStep(cfg, worker, before, ProcessAll(cfg, worker, before).0, file);
    } else {
      EmptyTable(cfg);
    }
  }

  lemma EmptyTable(cfg: Config)
    ensures var best := EmptyWorker(cfg).best;
      |best| == cfg.maxTuple && forall t | 0 <= t < |best| :: IsBest(cfg, [], t, best[t])
  {
  }

  lemma BestStep(cfg: Config, worker: nat, files: seq<nat>, w: WorkerData, file: nat)
    requires cfg.Valid() && InRange(cfg, files) && file < |cfg.traces| && |w.best| == cfg.maxTuple
    requires forall t | 0 <= t < |w.best| :: IsBest(cfg, files, t, w.best[t])
    ensures InRange(cfg, files + [file])
    ensures var best := Process(cfg, worker, w, file).0.best;
      |best| == cfg.maxTuple && forall t | 0 <= t < |best| :: IsBest(cfg, files + [file], t, best[t])
  {
    var best := Process(cfg, worker, w, file).0.best;
    var more := files + [file];
    assert forall f | f in more :: f in files || f == file;
    forall t | 0 <= t < |best|
      ensures IsBest(cfg, more, t, best[t])
    {
      assert IsBest(cfg, files, t, w.best[t]);
    }
  }

  /** All tuple occurrences in the traces of `files`. */
  function Occurrences(cfg: Config, files: seq<nat>): multiset<nat>
    requires InRange(cfg, files)
  {
    if files == [] then multiset{}
    else Occurrences(cfg, files[..|files| - 1]) + multiset(cfg.traces[files[|files| - 1]])
  }

  lemma {:induction false} CounterTable(cfg: Config, worker: nat, files: seq<nat>)
    requires InRange(cfg, files)
    ensures ProcessAll(cfg, worker, files).0.counter == Occurrences(cfg, files)
    decreases |files|
  {
    if files != [] {
      CounterTable(cfg, worker, files[..|files| - 1]);
    }
  }

  /** A saved message says where the whole trace of its file reads back. */
  ghost predicate ReadsBack(cfg: Config, worker: nat, pack: seq<Byte>, file: nat, message: Message)
    requires file < |cfg.traces|
  {
    message.Saved? ==>
      && message.file == file && message.entry.worker == worker && message.entry.count == |cfg.traces[file]|
      && ReadAt(pack, message.entry.pos, message.entry.count, cfg.itemSize) == Some(cfg.traces[file])
  }

  lemma TraceFits(cfg: Config, file: nat)
    requires cfg.Valid() && file < |cfg.traces|
    ensures forall j | 0 <= j < |cfg.traces[file]| :: cfg.traces[file][j] < Pow256(cfg.itemSize)
  {
  }

  lemma ReadsBackGrows(cfg: Config, worker: nat, pack: seq<Byte>, more: seq<Byte>, file: nat, message: Message)
    requires file < |cfg.traces| && ReadsBack(cfg, worker, pack, file, message)
    ensures ReadsBack(cfg, worker, pack + more, file, message)
  {
    if message.Saved? {
      ReadAtGrows(pack, more, message.entry.pos, message.entry.count, cfg.itemSize);
    }
  }

  /** Every position a worker reports reads back the trace it was reported for, in the final pack. */
  lemma {:induction false} PackReadsBack(cfg: Config, worker: nat, files: seq<nat>)
    requires cfg.Valid() && InRange(cfg, files)
    ensures var (data, messages) := ProcessAll(cfg, worker, files);
      forall j | 0 <= j < |files| :: ReadsBack(cfg, worker, data.pack, files[j], messages[j])
    decreases |files|
  {
    if files != [] {
      hide ReadsBack;
      var last := |files| - 1;
      var file := files[last];
      var (data, messages) := ProcessAll(cfg, worker, files[..last]);
      var (now, all) := ProcessAll(cfg, worker, files);
      PackReadsBack(cfg, worker, files[..last]);
      var more := PackStep(cfg, worker, data, file);
      forall j | 0 <= j < |files|
        ensures ReadsBack(cfg, worker, now.pack, files[j], all[j])
      {
        if j < last {
          assert files[..last][j] == files[j] && all[j] == messages[j];
          ReadsBackGrows(cfg, worker, data.pack, more, files[j], messages[j]);
        }
      }
    }
  }

  lemma PackStep(cfg: Config, worker: nat, w: WorkerData, file: nat) returns (more: seq<Byte>)
    requires cfg.Valid() && file < |cfg.traces|
    ensures var (now, message) := Process(cfg, worker, w, file);
      now.pack == w.pack + more && ReadsBack(cfg, worker, now.pack, file, message)
  {
    var trace := cfg.traces[file];
    var (now, message) := Process(cfg, worker, w, file);
    if message.Saved? {
      more := Encode(trace, cfg.itemSize);
      TraceFits(cfg, file);
      ReadBack(w.pack, trace, cfg.itemSize, []);
      assert w.pack + more + [] == w.pack + more;
    } else {
      more := [];
      assert w.pack + [] == w.pack;
    }
  }

  /** A file with a tuple for which no earlier file is as small gets its trace saved. */
  lemma FirstIsSaved(cfg: Config, worker: nat, files: seq<nat>, j: nat, t: nat)
    requires cfg.Valid() && InRange(cfg, files) && j < |files| && t in cfg.traces[files[j]]
    requires forall i | 0 <= i < j && t in cfg.traces[files[i]] :: files[j] < files[i]
    ensures ProcessAll(cfg, worker, files).1[j].Saved?
    decreases |files|
  {
    hide Process, IsBest;
    var last := |files| - 1;
    if j < last {
      assert files[..last][j] == files[j];
      FirstIsSaved(cfg, worker, files[..last], j, t);
    } else {
      var before := files[..last];
      var (data, messages) := ProcessAll(cfg, worker, before);
      BestTable(cfg, worker, before);
      SavedStep(cfg, worker, before, data, files[j], t);
    }
  }

  lemma SavedStep(cfg: Config, worker: nat, files: seq<nat>, w: WorkerData, file: nat, t: nat)
    requires cfg.Valid() && InRange(cfg, files) && file < |cfg.traces| && t in cfg.traces[file]
    requires |w.best| == cfg.maxTuple && t < |w.best| && IsBest(cfg, files, t, w.best[t])
    requires forall i | 0 <= i < |files| && t in cfg.traces[files[i]] :: file < files[i]
    ensures Process(cfg, worker, w, file).1.Saved?
  {
    assert file < w.best[t];
    ImprovesAt(w.best, cfg.traces[file], t, file);
  }
}
