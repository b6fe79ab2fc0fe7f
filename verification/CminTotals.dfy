/** The merged counter and the merged trace positions, for any schedule. */
module CminTotals {
  import opened Bytes
  import opened Wrappers
  import opened CminPack
  import opened CminWorker
  import opened CminWorkerLaws
  import opened CminProtocol
  import opened CminProtocolLaws
  import opened CminRuns
  import opened CminResult

  // ---------------------------------------------------------------- sums in any order

  /** The entries of `xs` at the given places. */
  function Pick<T>(xs: seq<multiset<T>>, places: seq<nat>): (r: seq<multiset<T>>)
    requires forall i | 0 <= i < |places| :: places[i] < |xs|
    ensures |r| == |places| && forall i | 0 <= i < |r| :: r[i] == xs[places[i]]
  {
    seq(|places|, i requires 0 <= i < |places| => xs[places[i]])
  }

  lemma {:induction false} SumMAppend<T>(xs: seq<multiset<T>>, ys: seq<multiset<T>>)
    ensures SumM(xs + ys) == SumM(xs) + SumM(ys)
    decreases |xs|
  {
    if xs == [] {
      assert xs + ys == ys;
    } else {
      assert (xs + ys)[1..] == xs[1..] + ys;
      SumMAppend(xs[1..], ys);
    }
  }

  lemma SumMMiddle<T>(xs: seq<multiset<T>>, i: nat)
    requires i < |xs|
    ensures SumM(xs) == xs[i] + SumM(xs[..i] + xs[i + 1..])
  {
    hide SumM;
    assert xs == xs[..i] + ([xs[i]] + xs[i + 1..]);
    SumMAppend(xs[..i], [xs[i]] + xs[i + 1..]);
    SumMHead(xs[i], xs[i + 1..]);
    SumMAppend(xs[..i], xs[i + 1..]);
  }

  lemma SumMHead<T>(x: multiset<T>, xs: seq<multiset<T>>)
    ensures SumM([x] + xs) == x + SumM(xs)
  {
    assert ([x] + xs)[1..] == xs;
  }

  lemma OthersMatch(a: seq<nat>, b: seq<nat>, i: nat)
    requires a != [] && multiset(a) == multiset(b) && i < |b| && b[i] == a[0]
    ensures multiset(a[1..]) == multiset(b[..i] + b[i + 1..])
  {
    assert a == [a[0]] + a[1..];
    assert b == b[..i] + [b[i]] + b[i + 1..];
    assert multiset(a) == multiset(a[1..]) + multiset{a[0]};
    assert multiset(b) == multiset(b[..i]) + multiset{b[i]} + multiset(b[i + 1..]);
    assert multiset(b[..i] + b[i + 1..]) == multiset(b[..i]) + multiset(b[i + 1..]);
    Cancel(multiset(a[1..]), multiset(b[..i] + b[i + 1..]), multiset{a[0]});
  }

  lemma PickWithout<T>(xs: seq<multiset<T>>, b: seq<nat>, i: nat)
    requires (forall k | 0 <= k < |b| :: b[k] < |xs|) && i < |b|
    ensures var others := b[..i] + b[i + 1..];
      (forall k | 0 <= k < |others| :: others[k] < |xs|)
      && SumM(Pick(xs, b)) == xs[b[i]] + SumM(Pick(xs, others))
  {
    hide SumM;
    var others := b[..i] + b[i + 1..];
    SumMMiddle(Pick(xs, b), i);
    assert Pick(xs, b)[..i] + Pick(xs, b)[i + 1..] == Pick(xs, others);
  }

  lemma PickHead<T>(xs: seq<multiset<T>>, a: seq<nat>)
    requires (forall k | 0 <= k < |a| :: a[k] < |xs|) && a != []
    ensures SumM(Pick(xs, a)) == xs[a[0]] + SumM(Pick(xs, a[1..]))
  {
    hide SumM;
    assert Pick(xs, a) == [xs[a[0]]] + Pick(xs, a[1..]);
    SumMHead(xs[a[0]], Pick(xs, a[1..]));
  }

  /** A sum of picked entries depends on which places are picked how often, not on their order. */
  lemma {:induction false} PickOrder<T>(xs: seq<multiset<T>>, a: seq<nat>, b: seq<nat>)
    requires (forall i | 0 <= i < |a| :: a[i] < |xs|) && (forall i | 0 <= i < |b| :: b[i] < |xs|)
    requires multiset(a) == multiset(b)
    ensures SumM(Pick(xs, a)) == SumM(Pick(xs, b))
    decreases |a|
  {
    hide SumM, Pick;
    if a == [] {
      NoneLeft(b);
    } else {
      assert a[0] in multiset(a);
      var i := PlaceOf(b, a[0]);
      OthersMatch(a, b, i);
      PickWithout(xs, b, i);
      PickHead(xs, a);
      PickOrder(xs, a[1..], b[..i] + b[i + 1..]);
    }
  }

  lemma NoneLeft(b: seq<nat>)
    requires multiset(b) == multiset{}
    ensures b == []
  {
    assert |multiset(b)| == |b|;
  }

  lemma PlaceOf(b: seq<nat>, x: nat) returns (i: nat)
    requires x in multiset(b)
    ensures i < |b| && b[i] == x
  {
    i :| 0 <= i < |b| && b[i] == x;
  }

  lemma Cancel<T>(a: multiset<T>, b: multiset<T>, c: multiset<T>)
    requires a + c == b + c
    ensures a == b
  {
    forall e
      ensures a[e] == b[e]
    {
      assert (a + c)[e] == (b + c)[e];
    }
  }

  lemma SameMembers(a: seq<nat>, n: nat)
    requires forall e :: multiset(a)[e] == if 0 <= e < n then 1 else 0
    ensures multiset(a) == multiset(Range(0, n))
  {
    forall e
      ensures multiset(a)[e] == multiset(Range(0, n))[e]
    {
      if 0 <= e < n {
        CountInRange(n, e);
      } else if e in multiset(Range(0, n)) {
        RangeHas(n, e);
      }
    }
  }

  // ---------------------------------------------------------------- the counter

  /** The tuple occurrences of each file. */
  function TraceBags(cfg: Config): (r: seq<multiset<nat>>)
    ensures |r| == |cfg.traces| && forall f | 0 <= f < |r| :: r[f] == multiset(cfg.traces[f])
  {
    seq(|cfg.traces|, f requires 0 <= f < |cfg.traces| => multiset(cfg.traces[f]))
  }

  /** How often each tuple occurs in the traces of all files. */
  function Total(cfg: Config): multiset<nat> {
    SumM(TraceBags(cfg))
  }

  lemma {:induction false} OccurrencesPick(cfg: Config, files: seq<nat>)
    requires InRange(cfg, files)
    ensures Occurrences(cfg, files) == SumM(Pick(TraceBags(cfg), files))
    decreases |files|
  {
    hide SumM;
    if files == [] {
      SumMZero(Pick(TraceBags(cfg), files));
    } else {
      var last := |files| - 1;
      OccurrencesPick(cfg, files[..last]);
      assert Pick(TraceBags(cfg), files) == Pick(TraceBags(cfg), files[..last]) + [multiset(cfg.traces[files[last]])];
      SumMSnoc(Pick(TraceBags(cfg), files[..last]), multiset(cfg.traces[files[last]]));
    }
  }

  lemma InRangeJoin(cfg: Config, a: seq<nat>, b: seq<nat>)
    requires InRange(cfg, a) && InRange(cfg, b)
    ensures InRange(cfg, a + b)
  {
  }

  lemma PickJoin(cfg: Config, a: seq<nat>, b: seq<nat>)
    requires InRange(cfg, a) && InRange(cfg, b)
    ensures InRange(cfg, a + b)
    ensures SumM(Pick(TraceBags(cfg), a + b)) == Occurrences(cfg, a) + SumM(Pick(TraceBags(cfg), b))
  {
    hide SumM, Occurrences;
    var tb := TraceBags(cfg);
    InRangeJoin(cfg, a, b);
    OccurrencesPick(cfg, a);
    SumMAppend(Pick(tb, a), Pick(tb, b));
    assert Pick(tb, a + b) == Pick(tb, a) + Pick(tb, b);
  }

  /** Counting list by list is counting the concatenation. */
  lemma {:induction false} CountFlat(cfg: Config, lists: seq<seq<nat>>, counters: seq<multiset<nat>>,
      bags: seq<multiset<nat>>)
    requires |counters| == |lists| && |bags| == |lists|
    requires forall i | 0 <= i < |lists| :: InRange(cfg, lists[i])
    requires forall i | 0 <= i < |lists| :: counters[i] == Occurrences(cfg, lists[i]) && bags[i] == multiset(lists[i])
    ensures InRange(cfg, Flat(lists)) && multiset(Flat(lists)) == SumM(bags)
    ensures SumM(counters) == SumM(Pick(TraceBags(cfg), Flat(lists)))
    decreases |lists|
  {
    hide Pick, TraceBags, Occurrences;
    if lists != [] {
      CountFlat(cfg, lists[1..], counters[1..], bags[1..]);
      PickJoin(cfg, lists[0], Flat(lists[1..]));
    } else {
      NothingPicked(cfg);
    }
  }

  lemma NothingPicked(cfg: Config)
    ensures SumM(Pick(TraceBags(cfg), [])) == multiset{}
  {
  }

  lemma GatheredOnce(cfg: Config, s: State)
    requires cfg.Valid() && Inv(cfg, s) && Complete(cfg, s)
    ensures multiset(s.gathered) == multiset(Range(0, cfg.workers))
  {
    hide SumM, SumN, FilesConserved, MessagesConserved, Ordered, StopsConserved, Range, WorkerOk;
    CompleteIsDone(cfg, s);
    assert multiset(s.results) + multiset(s.gathered) == multiset(s.gathered);
    forall e
      ensures multiset(s.gathered)[e] == if 0 <= e < cfg.workers then 1 else 0
    {
    }
    SameMembers(s.gathered, cfg.workers);
  }

  function Dones(s: State): (r: seq<seq<nat>>)
    requires forall i | 0 <= i < |s.gathered| :: s.gathered[i] < |s.workers|
    ensures |r| == |s.gathered| && forall i | 0 <= i < |r| :: r[i] == s.workers[s.gathered[i]].done
  {
    seq(|s.gathered|, i requires 0 <= i < |s.gathered| => s.workers[s.gathered[i]].done)
  }

  /** What the workers processed, put together in the order of arrival, is every file once. */
  lemma DoneOnce(cfg: Config, s: State)
    requires cfg.Valid() && Inv(cfg, s) && Complete(cfg, s)
    ensures forall i | 0 <= i < |s.gathered| :: s.gathered[i] < |s.workers|
    ensures SumM(Pick(Held(s.workers), s.gathered)) == multiset(Range(0, |cfg.traces|))
    ensures forall w | 0 <= w < |s.workers| :: Held(s.workers)[w] == multiset(s.workers[w].done)
  {
    hide Inv, SumM, Complete, Range;
    var held := Held(s.workers);
    ArrivedInRange(cfg, s);
    CompleteIsDone(cfg, s);
    AllStopped(cfg, s);
    GatheredOnce(cfg, s);
    WorkersAre(cfg, s);
    PickOrder(held, s.gathered, Range(0, |held|));
    assert Pick(held, Range(0, |held|)) == held;
    forall w | 0 <= w < |s.workers|
      ensures held[w] == multiset(s.workers[w].done)
    {
      assert multiset(s.workers[w].pending) == multiset{};
    }
  }

  lemma WorkersAre(cfg: Config, s: State)
    requires Inv(cfg, s)
    ensures |s.workers| == cfg.workers
  {
    hide SumM, SumN, FilesConserved, MessagesConserved, Ordered, StopsConserved, ResultsConserved, WorkerOk;
  }

  lemma WorkerCounts(cfg: Config, s: State, w: nat)
    requires Inv(cfg, s) && w < |s.workers|
    ensures InRange(cfg, s.workers[w].done)
    ensures s.workers[w].data.counter == Occurrences(cfg, s.workers[w].done)
  {
    hide SumM, SumN, FilesConserved, MessagesConserved, Ordered, StopsConserved, ResultsConserved, ProcessAll,
      Occurrences;
    assert WorkerOk(cfg, w, s.workers[w]);
    CounterTable(cfg, w, s.workers[w].done);
  }

  /** The merged counter counts every occurrence in every file, however the files were shared out. */
  lemma CounterIsTotal(cfg: Config, s: State)
    requires cfg.Valid() && Inv(cfg, s) && Complete(cfg, s)
    ensures forall i | 0 <= i < |s.gathered| :: s.gathered[i] < |s.workers|
    ensures SumM(Counters(Arrived(s))) == Total(cfg)
  {
    hide Inv, SumM, Complete, InRange, Range, Occurrences;
    DoneOnce(cfg, s);
    forall i | 0 <= i < |s.gathered|
      ensures InRange(cfg, Dones(s)[i]) && Counters(Arrived(s))[i] == Occurrences(cfg, Dones(s)[i])
    {
      WorkerCounts(cfg, s, s.gathered[i]);
    }
    var bags := Pick(Held(s.workers), s.gathered);
    CountFlat(cfg, Dones(s), Counters(Arrived(s)), bags);
    FlatToAll(cfg, Flat(Dones(s)));
  }

  lemma FlatToAll(cfg: Config, files: seq<nat>)
    requires InRange(cfg, files) && multiset(files) == multiset(Range(0, |cfg.traces|))
    ensures SumM(Pick(TraceBags(cfg), files)) == Total(cfg)
  {
    hide SumM;
    var all := Range(0, |cfg.traces|);
    PickOrder(TraceBags(cfg), files, all);
    assert Pick(TraceBags(cfg), all) == TraceBags(cfg);
  }

  // ---------------------------------------------------------------- where the traces are

  /** `trace_info` after the given messages. */
  function TraceInfo(inbox: seq<Message>): map<nat, Entry> {
    if inbox == [] then map[]
    else
      var last := |inbox| - 1;
      var before := TraceInfo(inbox[..last]);
      match inbox[last]
      case Nothing => before
      case Saved(file, entry) => before[file := entry]
  }

  /** The loop over the progress queue. */
  method Collect(inbox: seq<Message>) returns (info: map<nat, Entry>, effective: nat)
    ensures info == TraceInfo(inbox)
    ensures effective == |SavedPlaces(inbox)|
  {
    info := map[];
    effective := 0;
    for i := 0 to |inbox|
      invariant info == TraceInfo(inbox[..i])
      invariant effective == |SavedPlaces(inbox[..i])|
    {
      assert inbox[..i + 1][..i] == inbox[..i];
      SavedPlacesSnoc(inbox, i);
      match inbox[i] {
        case Nothing =>
        case Saved(file, entry) =>
          info := info[file := entry];
          effective := effective + 1;
      }
    }
    assert inbox[..|inbox|] == inbox;
  }

  /** The places of the messages that report a saved trace. */
  function SavedPlaces(inbox: seq<Message>): set<nat> {
    set i | 0 <= i < |inbox| && inbox[i].Saved?
  }

  lemma SavedPlacesSnoc(inbox: seq<Message>, i: nat)
    requires i < |inbox|
    ensures |SavedPlaces(inbox[..i + 1])| == |SavedPlaces(inbox[..i])| + (if inbox[i].Saved? then 1 else 0)
  {
    var was := SavedPlaces(inbox[..i]);
    assert SavedPlaces(inbox[..i + 1]) == if inbox[i].Saved? then was + {i} else was;
    assert i !in was;
  }

  lemma {:induction false} InfoFrom(inbox: seq<Message>, f: nat)
    requires f in TraceInfo(inbox)
    ensures Saved(f, TraceInfo(inbox)[f]) in inbox
    decreases |inbox|
  {
    var last := |inbox| - 1;
    assert inbox[last] in inbox;
    if inbox[last] != Saved(f, TraceInfo(inbox)[f]) {
      InfoFrom(inbox[..last], f);
    }
  }

  lemma {:induction false} InfoHas(inbox: seq<Message>, i: nat)
    requires i < |inbox| && inbox[i].Saved?
    ensures inbox[i].file in TraceInfo(inbox)
    decreases |inbox|
  {
    var last := |inbox| - 1;
    if i < last {
      assert inbox[..last][i] == inbox[i];
      InfoHas(inbox[..last], i);
    }
  }

  lemma AllReceived(cfg: Config, s: State)
    requires cfg.Valid() && Inv(cfg, s) && Complete(cfg, s)
    ensures multiset(s.inbox) == SumM(Sent(s.workers))
  {
    hide SumM, SumN, FilesConserved, WorkersOk, Ordered, StopsConserved, ResultsConserved;
    CompleteIsDone(cfg, s);
    assert multiset(s.progress) + multiset(s.inbox) == multiset(s.inbox);
  }

  lemma WorkerMessages(cfg: Config, s: State, w: nat)
    requires cfg.Valid() && Inv(cfg, s) && w < |s.workers|
    ensures var p := s.workers[w];
      && InRange(cfg, p.done) && |p.sent| == |p.done| && p.sent == ProcessAll(cfg, w, p.done).1
      && forall j | 0 <= j < |p.done| :: ReadsBack(cfg, w, p.data.pack, p.done[j], p.sent[j])
  {
    hide SumM, SumN, FilesConserved, MessagesConserved, Ordered, StopsConserved, ResultsConserved, ProcessAll,
      ReadsBack;
    assert WorkerOk(cfg, w, s.workers[w]);
    PackReadsBack(cfg, w, s.workers[w].done);
  }

  /** The pack files when all workers are done. */
  function Packs(s: State): (r: seq<seq<Byte>>)
    ensures |r| == |s.workers| && forall w | 0 <= w < |r| :: r[w] == s.workers[w].data.pack
  {
    seq(|s.workers|, w requires 0 <= w < |s.workers| => s.workers[w].data.pack)
  }

  /** Entry `e` leads to the trace of file `f`. */
  ghost predicate LeadsTo(cfg: Config, packs: seq<seq<Byte>>, e: Entry, f: nat) {
    && f < |cfg.traces| && e.worker < |packs|
    && ReadAt(packs[e.worker], e.pos, e.count, cfg.itemSize) == Some(cfg.traces[f])
  }

  /** Every recorded position leads to the whole trace of its file. */
  lemma EveryEntryReadsBack(cfg: Config, s: State, f: nat)
    requires cfg.Valid() && Inv(cfg, s) && Complete(cfg, s) && f in TraceInfo(s.inbox)
    ensures LeadsTo(cfg, Packs(s), TraceInfo(s.inbox)[f], f)
  {
    hide Inv, SumM, Complete, TraceInfo, ReadAt;
    var e := TraceInfo(s.inbox)[f];
    InfoFrom(s.inbox, f);
    assert Saved(f, e) in multiset(s.inbox);
    AllReceived(cfg, s);
    var w := SumMFrom(Sent(s.workers), Saved(f, e));
    assert Saved(f, e) in multiset(s.workers[w].sent);
    var j :| 0 <= j < |s.workers[w].sent| && s.workers[w].sent[j] == Saved(f, e);
    WorkerMessages(cfg, s, w);
    assert ReadsBack(cfg, w, s.workers[w].data.pack, s.workers[w].done[j], s.workers[w].sent[j]);
  }

  /** The least file of a tuple has a recorded position. */
  lemma LeastIsRecorded(cfg: Config, s: State, t: nat, f: nat)
    requires cfg.Valid() && Inv(cfg, s) && Complete(cfg, s) && IsLeast(cfg, t, f)
    ensures f in TraceInfo(s.inbox)
  {
    hide Inv, SumM, Complete, TraceInfo, ReadAt, ProcessAll, ReadsBack;
    var w, j := FileOnce(cfg, s, f);
    var p := s.workers[w];
    WorkerMessages(cfg, s, w);
    forall i | 0 <= i < j && t in cfg.traces[p.done[i]]
      ensures f < p.done[i]
    {
      assert p.done[i] != f;
    }
    FirstIsSaved(cfg, w, p.done, j, t);
    assert ReadsBack(cfg, w, p.data.pack, p.done[j], p.sent[j]);
    SavedNames(cfg, w, p.data.pack, f, p.sent[j]);
    assert p.sent[j] in Sent(s.workers)[w];
    SumMHas(Sent(s.workers), w, p.sent[j]);
    AllReceived(cfg, s);
    assert p.sent[j] in multiset(s.inbox);
    var i :| 0 <= i < |s.inbox| && s.inbox[i] == p.sent[j];
    InfoHas(s.inbox, i);
  }

  lemma SavedNames(cfg: Config, w: nat, pack: seq<Byte>, f: nat, message: Message)
    requires f < |cfg.traces| && ReadsBack(cfg, w, pack, f, message) && message.Saved?
    ensures message.file == f
  {
  }
}
