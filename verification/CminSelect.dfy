/** The end of `main` in afl-cmin.py: choosing the files to keep from what the workers reported. */
module CminSelect {
  import opened Bytes
  import opened Wrappers
  import opened CminPack
  import opened CminWorker
  import opened CminWorkerLaws
  import opened CminProtocol
  import opened CminProtocolLaws
  import opened CminRuns
  import opened CminResult
  import opened CminTotals
  import opened CminCover

  /** What `main` holds once every process has reported. */
  datatype Gathered = Gathered(best: seq<nat>, counter: multiset<nat>, info: map<nat, Entry>, packs: seq<seq<Byte>>)

  /** The tables say what they are meant to, and every position that will be needed is there and readable. */
  ghost predicate Ready(cfg: Config, g: Gathered) {
    && |g.best| == cfg.maxTuple && |g.packs| == cfg.workers && g.counter == Total(cfg)
    && (forall t | t in g.counter :: t < cfg.maxTuple && IsLeast(cfg, t, g.best[t]) && g.best[t] in g.info)
    && (forall f | f in g.info :: LeadsTo(cfg, g.packs, g.info[f], f))
  }

  /** `Counter.most_common()`: every tuple once, the most frequent first, ties in any order. */
  ghost predicate MostCommon(counter: multiset<nat>, order: seq<nat>) {
    && (forall t :: t in order <==> t in counter)
    && (forall i, j | 0 <= i < j < |order| :: order[i] != order[j] && counter[order[i]] >= counter[order[j]])
  }

  // ---------------------------------------------------------------- phase one

  /** The files of `saved` whose traces worker `w` packed, and their positions. */
  function FilesOf(info: map<nat, Entry>, saved: seq<nat>, w: nat): (r: seq<nat>)
    requires forall f | f in saved :: f in info
    ensures forall f :: f in r <==> f in saved && info[f].worker == w
  {
    if saved == [] then []
    else
      var last := |saved| - 1;
      assert forall f :: f in saved <==> f in saved[..last] || f == saved[last];
      FilesOf(info, saved[..last], w) + if info[saved[last]].worker == w then [saved[last]] else []
  }

  function JobsOf(info: map<nat, Entry>, files: seq<nat>): (r: seq<(nat, nat)>)
    requires forall f | f in files :: f in info
    ensures |r| == |files| && forall k | 0 <= k < |r| :: r[k] == (info[files[k]].pos, info[files[k]].count)
  {
    seq(|files|, k requires 0 <= k < |files| => (info[files[k]].pos, info[files[k]].count))
  }

  /** `jobs[w]` are the positions of the saved files that worker `w` packed. */
  ghost predicate JobsMatch(info: map<nat, Entry>, saved: seq<nat>, jobs: seq<seq<(nat, nat)>>) {
    && (forall f | f in saved :: f in info)
    && forall w | 0 <= w < |jobs| :: jobs[w] == JobsOf(info, FilesOf(info, saved, w))
  }

  lemma JobsMatchSnoc(info: map<nat, Entry>, saved: seq<nat>, jobs: seq<seq<(nat, nat)>>, f: nat)
    requires JobsMatch(info, saved, jobs) && f in info && info[f].worker < |jobs|
    ensures var e := info[f];
      JobsMatch(info, saved + [f], jobs[e.worker := jobs[e.worker] + [(e.pos, e.count)]])
  {
    var more := saved + [f];
    assert more[..|saved|] == saved;
  }

  lemma ForcedBest(cfg: Config, g: Gathered, t: nat)
    requires Ready(cfg, g) && g.counter[t] == 1
    ensures t < |g.best| && IsForced(cfg, g.best[t]) && IsLeast(cfg, t, g.best[t]) && g.best[t] in g.info
    ensures g.info[g.best[t]].worker < |g.packs|
  {
    hide Total, ReadAt;
    assert t in g.counter;
    assert LeadsTo(cfg, g.packs, g.info[g.best[t]], g.best[t]);
  }

  lemma ForcedHasTuple(cfg: Config, g: Gathered, f: nat) returns (t: nat)
    requires Ready(cfg, g) && IsForced(cfg, f)
    ensures g.counter[t] == 1 && t < |g.best| && g.best[t] == f
  {
    hide Total, LeadsTo;
    t :| t in cfg.traces[f] && Total(cfg)[t] == 1;
    assert t in g.counter;
    OnlyFile(cfg, t, f, g.best[t]);
  }

  /** A forced file not yet saved is called for by its own tuple. */
  lemma SaveForced(cfg: Config, g: Gathered, saved: seq<nat>, t: nat)
    requires Ready(cfg, g) && AllCalledFor(cfg, saved) && g.counter[t] == 1
    requires t < |g.best| && g.best[t] !in saved
    ensures AllCalledFor(cfg, saved + [g.best[t]])
  {
    hide Total, Cover, LeadsTo, AllCalledFor;
    ForcedBest(cfg, g, t);
    SavedInRange(cfg, saved);
    CoverHas(cfg, saved, t);
    forall i | 0 <= i < |saved|
      ensures t !in cfg.traces[saved[i]]
    {
      if t in cfg.traces[saved[i]] {
        OnlyFile(cfg, t, g.best[t], saved[i]);
      }
    }
    CalledForSnoc(cfg, saved, g.best[t], t);
  }

  lemma SavedInRange(cfg: Config, saved: seq<nat>)
    requires AllCalledFor(cfg, saved)
    ensures InRange(cfg, saved)
  {
    hide Wanted;
  }

  /** File `k` is that of the first tuple of the list with a count of one whose file is not among those before. */
  ghost predicate PickedUp(g: Gathered, order: seq<nat>, saved: seq<nat>, k: nat, i: nat)
    requires k < |saved|
  {
    && i < |order| && g.counter[order[i]] == 1 && order[i] < |g.best|
    && saved[k] == g.best[order[i]] && saved[k] !in saved[..k]
    && forall j | 0 <= j < i && g.counter[order[j]] == 1 :: order[j] < |g.best| && g.best[order[j]] in saved[..k]
  }

  ghost predicate IsNextUp(g: Gathered, order: seq<nat>, saved: seq<nat>, k: nat)
    requires k < |saved|
  {
    exists i: nat :: PickedUp(g, order, saved, k, i)
  }

  ghost predicate PickedInOrder(g: Gathered, order: seq<nat>, saved: seq<nat>) {
    forall k | 0 <= k < |saved| :: IsNextUp(g, order, saved, k)
  }

  lemma PickOneMore(g: Gathered, order: seq<nat>, saved: seq<nat>, i: nat)
    requires PickedInOrder(g, order, saved) && i < |order| && g.counter[order[i]] == 1 && order[i] < |g.best|
    requires g.best[order[i]] !in saved
    requires forall j | 0 <= j < i && g.counter[order[j]] == 1 :: order[j] < |g.best| && g.best[order[j]] in saved
    ensures PickedInOrder(g, order, saved + [g.best[order[i]]])
  {
    var more := saved + [g.best[order[i]]];
    forall k | 0 <= k < |more|
      ensures IsNextUp(g, order, more, k)
    {
      assert k <= |saved| && more[..k] == saved[..k] && saved[..|saved|] == saved;
      if k < |saved| {
        assert IsNextUp(g, order, saved, k);
        var l: nat :| PickedUp(g, order, saved, k, l);
        assert PickedUp(g, order, more, k, l);
      } else {
        assert PickedUp(g, order, more, k, i);
      }
    }
  }

  /** The loop over the tuples with a count of one: exactly the forced files, once each, in the order of the list. */
  method PhaseOne(ghost cfg: Config, g: Gathered, order: seq<nat>)
    returns (saved: seq<nat>, jobs: seq<seq<(nat, nat)>>)
    requires Ready(cfg, g) && MostCommon(g.counter, order)
    ensures AllCalledFor(cfg, saved) && JobsMatch(g.info, saved, jobs) && |jobs| == |g.packs|
    ensures (forall f :: f in saved <==> IsForced(cfg, f)) && PickedInOrder(g, order, saved)
  {
    hide Total, AllCalledFor, JobsMatch, IsForced, LeadsTo, IsLeast, PickedInOrder;
    saved := [];
    jobs := seq(|g.packs|, _ => []);
    NothingSaved(cfg, g, order, jobs);
    for i := 0 to |order|
      invariant AllCalledFor(cfg, saved) && JobsMatch(g.info, saved, jobs) && |jobs| == |g.packs|
      invariant (forall f | f in saved :: IsForced(cfg, f)) && PickedInOrder(g, order, saved)
      invariant forall j | 0 <= j < i && g.counter[order[j]] == 1 :: order[j] < |g.best| && g.best[order[j]] in saved
    {
      var t := order[i];
      if g.counter[t] != 1 {
        continue;
      }
      ForcedBest(cfg, g, t);
      var file := g.best[t];
      if file in saved {
        continue;
      }
      SaveForced(cfg, g, saved, t);
      var e := g.info[file];
      JobsMatchSnoc(g.info, saved, jobs, file);
      PickOneMore(g, order, saved, i);
      saved := saved + [file];
      jobs := jobs[e.worker := jobs[e.worker] + [(e.pos, e.count)]];
    }
    forall f | IsForced(cfg, f)
      ensures f in saved
    {
      var t := ForcedHasTuple(cfg, g, f);
      assert t in order;
    }
  }

  lemma NothingSaved(cfg: Config, g: Gathered, order: seq<nat>, jobs: seq<seq<(nat, nat)>>)
    requires forall w | 0 <= w < |jobs| :: jobs[w] == []
    ensures AllCalledFor(cfg, []) && JobsMatch(g.info, [], jobs) && PickedInOrder(g, order, [])
  {
  }

  // ---------------------------------------------------------------- reading the packs back

  /** The job at place `k` leads to the trace of `files[k]`. */
  ghost predicate JobsRead(cfg: Config, pack: seq<Byte>, jobs: seq<(nat, nat)>, files: seq<nat>) {
    && InRange(cfg, files) && |jobs| == |files|
    && forall k | 0 <= k < |jobs| :: ReadAt(pack, jobs[k].0, jobs[k].1, cfg.itemSize) == Some(cfg.traces[files[k]])
  }

  /** `CombineTraceWorker.run` */
  method Combine(ghost cfg: Config, pack: seq<Byte>, jobs: seq<(nat, nat)>, itemSize: nat, ghost files: seq<nat>)
    returns (have: set<nat>)
    requires itemSize == cfg.itemSize && JobsRead(cfg, pack, jobs, files)
    ensures have == Cover(cfg, files)
  {
    hide ReadAt;
    have := {};
    for k := 0 to |jobs|
      invariant have == Cover(cfg, files[..k])
    {
      var trace := ReadAt(pack, jobs[k].0, jobs[k].1, itemSize).Extract();
      assert files[..k + 1] == files[..k] + [files[k]];
      CoverSnoc(cfg, files[..k], files[k]);
      have := have + TupleSet(trace);
    }
    assert files[..|jobs|] == files;
  }

  lemma WorkerJobsRead(cfg: Config, g: Gathered, saved: seq<nat>, jobs: seq<seq<(nat, nat)>>, w: nat)
    requires Ready(cfg, g) && JobsMatch(g.info, saved, jobs) && InRange(cfg, saved) && w < |jobs| && |jobs| == |g.packs|
    ensures JobsRead(cfg, g.packs[w], jobs[w], FilesOf(g.info, saved, w))
  {
    hide Total, ReadAt, IsLeast, FilesOf;
    var files: seq<nat> := FilesOf(g.info, saved, w);
    forall k | 0 <= k < |files|
      ensures files[k] < |cfg.traces| && LeadsTo(cfg, g.packs, g.info[files[k]], files[k])
        && g.info[files[k]].worker == w
    {
      assert files[k] in files;
      assert files[k] in g.info;
    }
  }

  /** The workers whose results have come in so far. */
  ghost predicate HaveFrom(cfg: Config, info: map<nat, Entry>, saved: seq<nat>, arrived: seq<nat>, have: set<nat>)
    requires InRange(cfg, saved) && forall f | f in saved :: f in info
  {
    forall t :: t in have <==> exists i ::
      0 <= i < |saved| && info[saved[i]].worker in arrived && t in cfg.traces[saved[i]]
  }

  lemma HaveMore(cfg: Config, info: map<nat, Entry>, saved: seq<nat>, arrived: seq<nat>, have: set<nat>, w: nat)
    requires InRange(cfg, saved) && (forall f | f in saved :: f in info) && HaveFrom(cfg, info, saved, arrived, have)
    ensures InRange(cfg, FilesOf(info, saved, w))
    ensures HaveFrom(cfg, info, saved, arrived + [w], have + Cover(cfg, FilesOf(info, saved, w)))
  {
    hide Cover, FilesOf;
    var files: seq<nat> := FilesOf(info, saved, w);
    assert forall k | 0 <= k < |files| :: files[k] in files;
    var now := have + Cover(cfg, files);
    forall t
      ensures t in now <==>
        exists i :: 0 <= i < |saved| && info[saved[i]].worker in arrived + [w] && t in cfg.traces[saved[i]]
    {
      CoverHas(cfg, files, t);
      if t in Cover(cfg, files) {
        var k :| 0 <= k < |files| && t in cfg.traces[files[k]];
        assert files[k] in saved;
        var i :| 0 <= i < |saved| && saved[i] == files[k];
      }
      forall i | 0 <= i < |saved| && info[saved[i]].worker == w && t in cfg.traces[saved[i]]
        ensures t in now
      {
        assert saved[i] in files;
      }
    }
  }

  /** Collecting the results of the combining workers, in whatever order they arrive. */
  method CombineAll(ghost cfg: Config, g: Gathered, ghost saved: seq<nat>, jobs: seq<seq<(nat, nat)>>,
                    itemSize: nat, arrivals: seq<nat>) returns (have: set<nat>)
    requires Ready(cfg, g) && AllCalledFor(cfg, saved) && JobsMatch(g.info, saved, jobs) && |jobs| == |g.packs|
    requires itemSize == cfg.itemSize && multiset(arrivals) == multiset(Range(0, |jobs|))
    ensures InRange(cfg, saved) && have == Cover(cfg, saved)
  {
    hide Total, AllCalledFor, Cover, LeadsTo, Ready, FilesOf, JobsOf, Range;
    have := {};
    SavedInRange(cfg, saved);
    for i := 0 to |arrivals|
      invariant HaveFrom(cfg, g.info, saved, arrivals[..i], have)
    {
      var w := arrivals[i];
      assert w in multiset(arrivals);
      RangeHas(|jobs|, w);
      WorkerJobsRead(cfg, g, saved, jobs, w);
      var part := Combine(cfg, g.packs[w], jobs[w], itemSize, FilesOf(g.info, saved, w));
      HaveMore(cfg, g.info, saved, arrivals[..i], have, w);
      assert arrivals[..i + 1] == arrivals[..i] + [w];
      have := have + part;
    }
    assert arrivals[..|arrivals|] == arrivals;
    HaveAll(cfg, g, saved, arrivals, have);
  }

  lemma HaveAll(cfg: Config, g: Gathered, saved: seq<nat>, arrivals: seq<nat>, have: set<nat>)
    requires Ready(cfg, g) && InRange(cfg, saved) && (forall f | f in saved :: f in g.info)
    requires HaveFrom(cfg, g.info, saved, arrivals, have)
    requires multiset(arrivals) == multiset(Range(0, |g.packs|))
    ensures have == Cover(cfg, saved)
  {
    hide Total, Cover, ReadAt, Range, IsLeast;
    forall i | 0 <= i < |saved|
      ensures g.info[saved[i]].worker in arrivals
    {
      assert saved[i] in saved;
      var w := g.info[saved[i]].worker;
      assert LeadsTo(cfg, g.packs, g.info[saved[i]], saved[i]);
      CountInRange(|g.packs|, w);
      assert w in multiset(arrivals);
    }
    forall t
      ensures t in have <==> t in Cover(cfg, saved)
    {
      CoverHas(cfg, saved, t);
    }
  }

  // ---------------------------------------------------------------- phase two

  /** A tuple rarer than `order[i]` comes after it. */
  lemma RarerIsLater(counter: multiset<nat>, order: seq<nat>, i: nat, u: nat) returns (j: nat)
    requires MostCommon(counter, order) && i < |order| && u in counter && counter[u] < counter[order[i]]
    ensures i < j < |order| && order[j] == u
  {
    assert u in order;
    j :| 0 <= j < |order| && order[j] == u;
  }

  lemma SaveRarest(cfg: Config, g: Gathered, order: seq<nat>, i: nat, saved: seq<nat>)
    requires Ready(cfg, g) && MostCommon(g.counter, order) && AllCalledFor(cfg, saved) && i < |order|
    requires InRange(cfg, saved) && order[i] !in Cover(cfg, saved)
    requires forall j | i < j < |order| :: order[j] in Cover(cfg, saved)
    ensures order[i] < |g.best| && g.best[order[i]] in g.info
    ensures var file := g.best[order[i]];
      && LeadsTo(cfg, g.packs, g.info[file], file) && AllCalledFor(cfg, saved + [file])
      && InRange(cfg, saved + [file]) && Cover(cfg, saved + [file]) == Cover(cfg, saved) + TupleSet(cfg.traces[file])
      && order[i] in TupleSet(cfg.traces[file])
  {
    hide Total, Cover, LeadsTo, AllCalledFor, IsLeast;
    var t := order[i];
    assert t in g.counter;
    var file := g.best[t];
    LeastInRange(cfg, t, file);
    forall u | u in Total(cfg) && Total(cfg)[u] < Total(cfg)[t]
      ensures u in Cover(cfg, saved)
    {
      var j := RarerIsLater(g.counter, order, i, u);
    }
    CalledForSnoc(cfg, saved, file, t);
    CoverSnoc(cfg, saved, file);
  }

  /** File `k` is that of the last tuple of the list that the files before do not cover. */
  ghost predicate PickedDown(cfg: Config, g: Gathered, order: seq<nat>, saved: seq<nat>, k: nat, i: nat)
    requires InRange(cfg, saved) && k < |saved|
  {
    && i < |order| && order[i] !in Cover(cfg, saved[..k]) && order[i] < |g.best| && saved[k] == g.best[order[i]]
    && forall j | i < j < |order| :: order[j] in Cover(cfg, saved[..k])
  }

  ghost predicate IsNextDown(cfg: Config, g: Gathered, order: seq<nat>, saved: seq<nat>, k: nat)
    requires InRange(cfg, saved) && k < |saved|
  {
    exists i: nat :: PickedDown(cfg, g, order, saved, k, i)
  }

  ghost predicate PickedFromEnd(cfg: Config, g: Gathered, order: seq<nat>, from: nat, saved: seq<nat>)
    requires InRange(cfg, saved)
  {
    forall k | from <= k < |saved| :: IsNextDown(cfg, g, order, saved, k)
  }

  lemma PickLast(cfg: Config, g: Gathered, order: seq<nat>, from: nat, saved: seq<nat>, i: nat)
    requires InRange(cfg, saved) && PickedFromEnd(cfg, g, order, from, saved) && i < |order|
    requires order[i] !in Cover(cfg, saved) && order[i] < |g.best| && g.best[order[i]] < |cfg.traces|
    requires forall j | i < j < |order| :: order[j] in Cover(cfg, saved)
    ensures InRange(cfg, saved + [g.best[order[i]]])
    ensures PickedFromEnd(cfg, g, order, from, saved + [g.best[order[i]]])
  {
    hide Cover;
    var more := saved + [g.best[order[i]]];
    forall k | from <= k < |more|
      ensures IsNextDown(cfg, g, order, more, k)
    {
      assert k <= |saved| && more[..k] == saved[..k] && saved[..|saved|] == saved;
      if k < |saved| {
        assert IsNextDown(cfg, g, order, saved, k);
        var l: nat :| PickedDown(cfg, g, order, saved, k, l);
        assert PickedDown(cfg, g, order, more, k, l);
      } else {
        assert PickedDown(cfg, g, order, more, k, i);
      }
    }
  }

  /** The loop over the reversed list: from the rarest tuple on, one file for each that is still missing. */
  method PhaseTwo(ghost cfg: Config, g: Gathered, order: seq<nat>, first: seq<nat>, had: set<nat>, itemSize: nat)
    returns (saved: seq<nat>)
    requires Ready(cfg, g) && MostCommon(g.counter, order) && itemSize == cfg.itemSize
    requires AllCalledFor(cfg, first) && InRange(cfg, first) && had == Cover(cfg, first)
    ensures AllCalledFor(cfg, saved) && InRange(cfg, saved) && first <= saved
    ensures PickedFromEnd(cfg, g, order, |first|, saved)
    ensures forall t | t in g.counter :: t in Cover(cfg, saved)
  {
    hide Total, Cover, AllCalledFor, Ready, ReadAt, PickedFromEnd;
    saved := first;
    var have := had;
    NothingPicked(cfg, g, order, first);
    for i := |order| downto 0
      invariant AllCalledFor(cfg, saved) && InRange(cfg, saved) && first <= saved
      invariant have == Cover(cfg, saved) && PickedFromEnd(cfg, g, order, |first|, saved)
      invariant forall j | i <= j < |order| :: order[j] in have
    {
      var t := order[i];
      if t in have {
        continue;
      }
      SaveRarest(cfg, g, order, i, saved);
      var file := g.best[t];
      PickLast(cfg, g, order, |first|, saved, i);
      saved := saved + [file];
      var e := g.info[file];
      var trace := ReadAt(g.packs[e.worker], e.pos, e.count, itemSize).Extract();
      have := have + TupleSet(trace);
    }
  }

  lemma NothingPicked(cfg: Config, g: Gathered, order: seq<nat>, first: seq<nat>)
    requires InRange(cfg, first)
    ensures PickedFromEnd(cfg, g, order, |first|, first)
  {
  }

  /**
   The whole selection.  The saved files cover exactly the tuples that occur anywhere; each was called
   for; those of phase one are the forced ones.
   */
  method Select(ghost cfg: Config, g: Gathered, order: seq<nat>, itemSize: nat, arrivals: seq<nat>)
    returns (saved: seq<nat>, firstCount: nat)
    requires Ready(cfg, g) && MostCommon(g.counter, order) && itemSize == cfg.itemSize
    requires multiset(arrivals) == multiset(Range(0, |g.packs|))
    ensures AllCalledFor(cfg, saved) && InRange(cfg, saved) && Cover(cfg, saved) == AllTuples(cfg)
    ensures firstCount <= |saved| && forall f :: f in saved[..firstCount] <==> IsForced(cfg, f)
    ensures PickedInOrder(g, order, saved[..firstCount]) && PickedFromEnd(cfg, g, order, firstCount, saved)
    ensures |saved| <= |AllTuples(cfg)|
  {
    hide Total, Cover, AllCalledFor, AllTuples, IsForced, Range, PickedInOrder, PickedFromEnd;
    var first, jobs := PhaseOne(cfg, g, order);
    var had := CombineAll(cfg, g, first, jobs, itemSize, arrivals);
    firstCount := |first|;
    saved := PhaseTwo(cfg, g, order, first, had, itemSize);
    assert saved[..firstCount] == first;
    SavedBound(cfg, saved, |saved|);
    assert saved[..|saved|] == saved;
    forall t
      ensures t in Cover(cfg, saved) <==> t in AllTuples(cfg)
    {
      AllTuplesOccur(cfg, t);
    }
  }

  lemma {:induction false} SameUp(g: Gathered, order: seq<nat>, a: seq<nat>, b: seq<nat>, k: nat)
    requires PickedInOrder(g, order, a) && PickedInOrder(g, order, b) && k <= |a| && k <= |b|
    ensures a[..k] == b[..k]
  {
    if k > 0 {
      var n := k - 1;
      SameUp(g, order, a, b, n);
      assert IsNextUp(g, order, a, n) && IsNextUp(g, order, b, n);
      var i: nat :| PickedUp(g, order, a, n, i);
      var j: nat :| PickedUp(g, order, b, n, j);
      assert a[n] == b[n];
      assert a[..k] == a[..n] + [a[n]] && b[..k] == b[..n] + [b[n]];
    }
  }

  lemma {:induction false} SameDown(cfg: Config, g: Gathered, order: seq<nat>, from: nat, a: seq<nat>, b: seq<nat>,
                                    k: nat)
    requires InRange(cfg, a) && InRange(cfg, b) && from <= k <= |a| && k <= |b| && a[..from] == b[..from]
    requires PickedFromEnd(cfg, g, order, from, a) && PickedFromEnd(cfg, g, order, from, b)
    ensures a[..k] == b[..k]
    decreases k
  {
    hide Cover;
    if k > from {
      var n := k - 1;
      SameDown(cfg, g, order, from, a, b, n);
      assert IsNextDown(cfg, g, order, a, n) && IsNextDown(cfg, g, order, b, n);
      var i: nat :| PickedDown(cfg, g, order, a, n, i);
      var j: nat :| PickedDown(cfg, g, order, b, n, j);
      assert a[n] == b[n];
      assert a[..k] == a[..n] + [a[n]] && b[..k] == b[..n] + [b[n]];
    }
  }

  /**
   The list of tuples decides the selection: two results picked by it, with the same files forced and all
   tuples covered, are the same, file by file.
   */
  lemma ListDecides(cfg: Config, g: Gathered, order: seq<nat>, a: seq<nat>, b: seq<nat>, m: nat, n: nat)
    requires InRange(cfg, a) && InRange(cfg, b) && m <= |a| && n <= |b| && Ready(cfg, g) && MostCommon(g.counter, order)
    requires PickedInOrder(g, order, a[..m]) && PickedFromEnd(cfg, g, order, m, a) && Cover(cfg, a) == AllTuples(cfg)
    requires PickedInOrder(g, order, b[..n]) && PickedFromEnd(cfg, g, order, n, b) && Cover(cfg, b) == AllTuples(cfg)
    requires forall f :: f in a[..m] <==> IsForced(cfg, f)
    requires forall f :: f in b[..n] <==> IsForced(cfg, f)
    ensures a == b && m == n
  {
    hide Cover, AllTuples, IsForced, Ready, PickedInOrder, PickedFromEnd;
    FirstDecided(cfg, g, order, a[..m], b[..n]);
    var k := if |a| < |b| then |a| else |b|;
    SameDown(cfg, g, order, m, a, b, k);
    if k < |a| {
      NoneLeft(cfg, g, order, m, a, k);
    } else if k < |b| {
      NoneLeft(cfg, g, order, m, b, k);
    }
    assert a[..|a|] == a && b[..|b|] == b;
  }

  /** After the last missing tuple nothing is picked. */
  lemma NoneLeft(cfg: Config, g: Gathered, order: seq<nat>, from: nat, saved: seq<nat>, k: nat)
    requires InRange(cfg, saved) && Ready(cfg, g) && MostCommon(g.counter, order)
    requires PickedFromEnd(cfg, g, order, from, saved) && from <= k < |saved|
    ensures Cover(cfg, saved[..k]) != AllTuples(cfg)
  {
    hide Cover, AllTuples, Total, LeadsTo, IsLeast;
    assert IsNextDown(cfg, g, order, saved, k);
    var i: nat :| PickedDown(cfg, g, order, saved, k, i);
    assert order[i] in order;
    AllTuplesOccur(cfg, order[i]);
  }

  lemma FirstDecided(cfg: Config, g: Gathered, order: seq<nat>, a: seq<nat>, b: seq<nat>)
    requires PickedInOrder(g, order, a) && PickedInOrder(g, order, b)
    requires forall f :: f in a <==> f in b
    ensures a == b
  {
    var k := if |a| < |b| then |a| else |b|;
    SameUp(g, order, a, b, k);
    assert a[..|a|] == a && b[..|b|] == b;
    if k < |a| {
      NewPick(g, order, a, k);
    } else if k < |b| {
      NewPick(g, order, b, k);
    }
  }

  lemma NewPick(g: Gathered, order: seq<nat>, saved: seq<nat>, k: nat)
    requires PickedInOrder(g, order, saved) && k < |saved|
    ensures exists f :: f in saved && f !in saved[..k]
  {
    assert IsNextUp(g, order, saved, k);
    assert saved[k] in saved;
  }

  // ---------------------------------------------------------------- every run ends up ready

  /** What `main` has gathered in the completed state `s`. */
  function Gather(cfg: Config, s: State): Gathered
    requires forall i | 0 <= i < |s.gathered| :: s.gathered[i] < |s.workers|
    requires forall i | 0 <= i < |s.gathered| :: |Arrived(s)[i].best| == cfg.maxTuple
  {
    Gathered(BestFiles(cfg, s), SumM(Counters(Arrived(s))), TraceInfo(s.inbox), Packs(s))
  }

  lemma OccursBelow(cfg: Config, t: nat)
    requires cfg.Valid() && Occurs(cfg, t)
    ensures t < cfg.maxTuple
  {
    var f :| 0 <= f < |cfg.traces| && t in cfg.traces[f];
    var j :| 0 <= j < |cfg.traces[f]| && cfg.traces[f][j] == t;
  }

  /**
   For every number of workers and every interleaving: when the run is over, the selection finds what
   it needs, so that it keeps full coverage, and its tables do not depend on the schedule.
   */
  lemma EveryRunIsReady(cfg: Config, steps: seq<Step>, s: State)
    requires cfg.Valid() && RunsTo(cfg, Init(cfg), steps, s) && forall step :: !Enabled(cfg, s, step)
    ensures forall i | 0 <= i < |s.gathered| :: s.gathered[i] < |s.workers|
    ensures forall i | 0 <= i < |s.gathered| :: |Arrived(s)[i].best| == cfg.maxTuple
    ensures Ready(cfg, Gather(cfg, s))
  {
    hide Inv, Complete, Enabled, Init, RunsTo, Total, SumM, IsLeast, LeadsTo, TraceInfo, Occurs, BestFiles;
    RunInvariant(cfg, steps, s);
    ArrivedSizes(cfg, s);
    CounterIsTotal(cfg, s);
    WorkersAre(cfg, s);
    var g := Gather(cfg, s);
    TableSize(cfg, s);
    forall t | t in g.counter
      ensures t < cfg.maxTuple && IsLeast(cfg, t, g.best[t]) && g.best[t] in g.info
    {
      AllTuplesOccur(cfg, t);
      OccursBelow(cfg, t);
      MergedIsLeast(cfg, s, t);
      LeastIsRecorded(cfg, s, t, g.best[t]);
    }
    forall f | f in g.info
      ensures LeadsTo(cfg, g.packs, g.info[f], f)
    {
      EveryEntryReadsBack(cfg, s, f);
    }
  }

  lemma TableSize(cfg: Config, s: State)
    requires forall i | 0 <= i < |s.gathered| :: s.gathered[i] < |s.workers|
    requires forall i | 0 <= i < |s.gathered| :: |Arrived(s)[i].best| == cfg.maxTuple
    ensures |BestFiles(cfg, s)| == cfg.maxTuple
  {
  }

  /** Two runs, even with different numbers of workers, lead to the same table and the same counts. */
  lemma ScheduleDoesNotMatter(cfg: Config, cfg': Config, g: Gathered, g': Gathered, t: nat)
    requires Ready(cfg, g) && Ready(cfg', g') && cfg.traces == cfg'.traces
    ensures g.counter == g'.counter
    ensures t in g.counter ==> g.best[t] == g'.best[t]
  {
    hide LeadsTo, SumM;
    assert TraceBags(cfg) == TraceBags(cfg');
    if t in g.counter {
      var f, f' := g.best[t], g'.best[t];
      assert IsLeast(cfg, t, f) && IsLeast(cfg', t, f');
      assert f <= f' && f' <= f;
    }
  }
}
