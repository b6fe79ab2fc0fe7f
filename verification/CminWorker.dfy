/** `Worker.run` of afl-cmin.py: what one worker makes of the files it is handed. */
module CminWorker {
  import opened Bytes
  import opened CminPack

  /** Fixed for a run: the traces that afl-showmap reports, by file index, and the table layout. */
  datatype Config = Config(traces: seq<Trace>, workers: nat, maxTuple: nat, itemSize: nat, noFile: nat,
      crashDir: bool) {
    /** What the set-up of `main` guarantees. */
    ghost predicate Valid() {
      && 1 <= workers
      && (forall i, j | 0 <= i < |traces| && 0 <= j < |traces[i]| :: traces[i][j] < maxTuple)
      && maxTuple <= Pow256(itemSize)
      && |traces| <= noFile
    }
  }

  /** The trace file of one input: what each of its lines becomes. */
  function TraceOf(lines: seq<nat>): (r: Trace)
    ensures |r| == |lines| && forall j | 0 <= j < |r| :: r[j] == TupleOf(lines[j])
  {
    seq(|lines|, j requires 0 <= j < |lines| => TupleOf(lines[j]))
  }

  /** With item widths from `detect_type_code`, the set-up of `main` leaves room for every tuple and every file. */
  lemma SetUpIsValid(lines: seq<seq<nat>>, workers: nat, mapSize: nat, fileWidth: nat, tupleWidth: nat, crashDir: bool)
    requires 1 <= workers && |lines| < Pow256(fileWidth) && 9 * mapSize < Pow256(tupleWidth)
    requires forall f, j | 0 <= f < |lines| && 0 <= j < |lines[f]| ::
      lines[f][j] / 1000 < mapSize && lines[f][j] % 1000 < 9
    ensures var traces := seq(|lines|, f requires 0 <= f < |lines| => TraceOf(lines[f]));
      Config(traces, workers, 9 * mapSize, tupleWidth, Pow256(fileWidth) - 1, crashDir).Valid()
  {
    forall f, j | 0 <= f < |lines| && 0 <= j < |lines[f]|
      ensures TraceOf(lines[f])[j] < 9 * mapSize
    {
      var line := lines[f][j];
      assert line == line / 1000 * 1000 + line % 1000;
      TupleOfFits(line / 1000, line % 1000, 0, 0, mapSize);
    }
  }

  /** Where a trace was saved: which pack, at which offset, how many items. */
  datatype Entry = Entry(worker: nat, pos: nat, count: nat)

  /** One progress message. */
  datatype Message = Nothing | Saved(file: nat, entry: Entry)

  /** The state of a worker: `best[t]` is the least file seen with tuple `t`. */
  datatype WorkerData = WorkerData(best: seq<nat>, counter: multiset<nat>, crashes: seq<nat>, pack: seq<Byte>)

  function EmptyWorker(cfg: Config): WorkerData {
    WorkerData(seq(cfg.maxTuple, _ => cfg.noFile), multiset{}, [], [])
  }

  /** In batch mode a file crashed exactly when its trace is empty. */
  predicate Crashed(trace: Trace) {
    trace == []
  }

  /** Some tuple of the trace has no file as small yet. */
  predicate Improves(best: seq<nat>, trace: Trace, file: nat) {
    exists i :: 0 <= i < |trace| && trace[i] < |best| && file < best[trace[i]]
  }

  function Improved(best: seq<nat>, trace: Trace, file: nat): (r: seq<nat>)
    ensures |r| == |best|
    ensures forall t | 0 <= t < |r| :: r[t] == if t in trace && file < best[t] then file else best[t]
  {
    seq(|best|, t requires 0 <= t < |best| => if t in trace && file < best[t] then file else best[t])
  }

  /** One file: table, counter, crash list and pack after it, and the message it leads to. */
  function Process(cfg: Config, worker: nat, w: WorkerData, file: nat): (r: (WorkerData, Message))
    requires file < |cfg.traces|
  {
    var trace := cfg.traces[file];
    var crashes := if Crashed(trace) then w.crashes + [file] else w.crashes;
    var looked := !Crashed(trace) || !cfg.crashDir;
    var best := if looked then Improved(w.best, trace, file) else w.best;
    if looked && Improves(w.best, trace, file)
    then (WorkerData(best, w.counter + multiset(trace), crashes, w.pack + Encode(trace, cfg.itemSize)),
          Saved(file, Entry(worker, |w.pack|, |trace|)))
    else (WorkerData(best, w.counter + multiset(trace), crashes, w.pack), Nothing)
  }

  /** The worker process. */
  class Worker {
    const cfg: Config
    const index: nat
    const best: array<nat>
    var counter: multiset<nat>
    var crashes: seq<nat>
    var pack: seq<Byte>
    var packPos: nat

    ghost predicate Valid()
      reads this, best
    {
      && cfg.Valid() && best.Length == cfg.maxTuple && packPos == |pack|
    }

    ghost function Data(): WorkerData
      reads this, best
    {
      WorkerData(best[..], counter, crashes, pack)
    }

    constructor (cfg: Config, index: nat)
      requires cfg.Valid()
      ensures Valid() && this.cfg == cfg && this.index == index && fresh(best)
      ensures Data() == EmptyWorker(cfg)
    {
      this.cfg := cfg;
      this.index := index;
      best := new nat[cfg.maxTuple](_ => cfg.noFile);
      counter := multiset{};
      crashes := [];
      pack := [];
      packPos := 0;
      new;
      assert best[..] == EmptyWorker(cfg).best;
    }

    /** The body of the loop over one batch's results. */
    method ProcessFile(file: nat) returns (message: Message)
      requires Valid() && file < |cfg.traces|
      modifies this, best
      ensures Valid()
      ensures (Data(), message) == Process(cfg, index, old(Data()), file)
    {
      var trace := cfg.traces[file];
      counter := counter + multiset(trace);
      var used := false;
      if Crashed(trace) {
        crashes := crashes + [file];
      }
      if !Crashed(trace) || !cfg.crashDir {
        used := Lower(trace, file);
      }
      if used {
        pack := pack + Encode(trace, cfg.itemSize);
        message := Saved(file, Entry(index, packPos, |trace|));
        packPos := packPos + |trace| * cfg.itemSize;
      } else {
        message := Nothing;
      }
    }

    /** The inner loop over the tuples of one trace. */
    method Lower(trace: Trace, file: nat) returns (used: bool)
      requires forall j | 0 <= j < |trace| :: trace[j] < best.Length
      modifies best
      ensures best[..] == Improved(old(best[..]), trace, file)
      ensures used == Improves(old(best[..]), trace, file)
    {
      ghost var was := best[..];
      used := false;
      for i := 0 to |trace|
        invariant best[..] == Improved(was, trace[..i], file)
        invariant used == Improves(was, trace[..i], file)
      {
        var t := trace[i];
        assert trace[..i + 1] == trace[..i] + [t];
        assert Improves(was, trace[..i + 1], file) <==> Improves(was, trace[..i], file) || file < was[t] by {
          ImprovesSnoc(was, trace[..i], t, file);
        }
        assert best[t] == best[..][t];
        if file < best[t] {
          best[t] := file;
          used := true;
        } else if file < was[t] {
          ImprovesAt(was, trace[..i], t, file);
        }
      }
      assert trace[..|trace|] == trace;
    }
  }

  lemma ImprovesSnoc(best: seq<nat>, trace: Trace, t: nat, file: nat)
    requires t < |best|
    ensures Improves(best, trace + [t], file) <==> Improves(best, trace, file) || file < best[t]
  {
    var more := trace + [t];
    if Improves(best, trace, file) {
      var i :| 0 <= i < |trace| && trace[i] < |best| && file < best[trace[i]];
      assert more[i] == trace[i];
    }
    if file < best[t] {
      assert more[|trace|] == t;
    }
    if Improves(best, more, file) {
      var i :| 0 <= i < |more| && more[i] < |best| && file < best[more[i]];
      if i < |trace| {
        assert more[i] == trace[i];
      }
    }
  }

  lemma ImprovesAt(best: seq<nat>, trace: Trace, t: nat, file: nat)
    requires t in trace && t < |best| && file < best[t]
    ensures Improves(best, trace, file)
  {
    var i :| 0 <= i < |trace| && trace[i] == t;
  }
}
