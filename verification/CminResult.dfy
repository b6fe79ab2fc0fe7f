/** What `main` knows when every process has reported, for any number of workers and any schedule. */
module CminResult {
  import opened Arithmetic
  import opened CminWorker
  import opened CminWorkerLaws
  import opened CminProtocol
  import opened CminProtocolLaws
  import opened CminRuns

  /** `f` is the least file whose trace holds `t`. */
  ghost predicate IsLeast(cfg: Config, t: nat, f: nat) {
    f < |cfg.traces| && t in cfg.traces[f] && forall g | 0 <= g < |cfg.traces| && t in cfg.traces[g] :: f <= g
  }

  ghost predicate Occurs(cfg: Config, t: nat) {
    exists g :: 0 <= g < |cfg.traces| && t in cfg.traces[g]
  }

  // ---------------------------------------------------------------- merging the results

  /** `map(min, zip(*ms))` */
  function MinTable(tables: seq<seq<nat>>, size: nat, top: nat): (r: seq<nat>)
    requires forall i | 0 <= i < |tables| :: |tables[i]| == size
    ensures |r| == size
  {
    if tables == [] then seq(size, _ => top)
    else
      var rest := MinTable(tables[1..], size, top);
      seq(size, t requires 0 <= t < size => Min(tables[0][t], rest[t]))
  }

  lemma {:induction false} MinTableIs(tables: seq<seq<nat>>, size: nat, top: nat, t: nat)
    requires (forall i | 0 <= i < |tables| :: |tables[i]| == size) && t < size
    requires forall i | 0 <= i < |tables| :: tables[i][t] <= top
    ensures var m := MinTable(tables, size, top)[t];
      && m <= top && (m != top ==> exists i :: 0 <= i < |tables| && tables[i][t] == m)
      && forall i | 0 <= i < |tables| :: m <= tables[i][t]
    decreases |tables|
  {
    if tables != [] {
      MinTableIs(tables[1..], size, top, t);
      var rest := MinTable(tables[1..], size, top)[t];
      if rest != top {
        var i :| 0 <= i < |tables[1..]| && tables[1..][i][t] == rest;
        assert tables[i + 1][t] == rest;
      }
      assert tables[0][t] == tables[0][t];
      forall i | 0 <= i < |tables|
        ensures MinTable(tables, size, top)[t] <= tables[i][t]
      {
        if i > 0 {
          assert tables[i] == tables[1..][i - 1];
        }
      }
    }
  }

  /** The workers' data in the order in which their results arrived. */
  function Arrived(s: State): (r: seq<WorkerData>)
    requires forall i | 0 <= i < |s.gathered| :: s.gathered[i] < |s.workers|
    ensures |r| == |s.gathered| && forall i | 0 <= i < |r| :: r[i] == s.workers[s.gathered[i]].data
  {
    seq(|s.gathered|, i requires 0 <= i < |s.gathered| => s.workers[s.gathered[i]].data)
  }

  function Tables(results: seq<WorkerData>): (r: seq<seq<nat>>)
    ensures |r| == |results| && forall i | 0 <= i < |r| :: r[i] == results[i].best
  {
    seq(|results|, i requires 0 <= i < |results| => results[i].best)
  }

  function Counters(results: seq<WorkerData>): (r: seq<multiset<nat>>)
    ensures |r| == |results| && forall i | 0 <= i < |r| :: r[i] == results[i].counter
  {
    seq(|results|, i requires 0 <= i < |results| => results[i].counter)
  }

  function Flat(lists: seq<seq<nat>>): seq<nat> {
    if lists == [] then [] else lists[0] + Flat(lists[1..])
  }

  lemma {:induction false} FlatSnoc(lists: seq<seq<nat>>, list: seq<nat>)
    ensures Flat(lists + [list]) == Flat(lists) + list
    decreases |lists|
  {
    if lists == [] {
      assert [list][1..] == [] && [] + [list] == [list];
    } else {
      assert (lists + [list])[1..] == lists[1..] + [list];
      FlatSnoc(lists[1..], list);
    }
  }

  function CrashLists(results: seq<WorkerData>): (r: seq<seq<nat>>)
    ensures |r| == |results| && forall i | 0 <= i < |r| :: r[i] == results[i].crashes
  {
    seq(|results|, i requires 0 <= i < |results| => results[i].crashes)
  }

  lemma {:induction false} SumMSnoc<T>(xs: seq<multiset<T>>, x: multiset<T>)
    ensures SumM(xs + [x]) == SumM(xs) + x
    decreases |xs|
  {
    if xs == [] {
      assert [x][1..] == [];
      assert [] + [x] == [x];
    } else {
      assert (xs + [x])[1..] == xs[1..] + [x];
      SumMSnoc(xs[1..], x);
    }
  }

  /** The loop over the result queue, then the minimum over all tables. */
  method Merge(results: seq<WorkerData>, size: nat, top: nat)
    returns (best: seq<nat>, counter: multiset<nat>, crashes: seq<nat>)
    requires forall i | 0 <= i < |results| :: |results[i].best| == size
    ensures best == MinTable(Tables(results), size, top) && counter == SumM(Counters(results))
    ensures crashes == Flat(CrashLists(results))
  {
    var ms := [];
    counter, crashes := multiset{}, [];
    for i := 0 to |results|
      invariant ms == Tables(results)[..i]
      invariant counter == SumM(Counters(results)[..i]) && crashes == Flat(CrashLists(results)[..i])
    {
      ms := ms + [results[i].best];
      SumMSnoc(Counters(results)[..i], results[i].counter);
      FlatSnoc(CrashLists(results)[..i], results[i].crashes);
      assert Counters(results)[..i + 1] == Counters(results)[..i] + [results[i].counter];
      assert CrashLists(results)[..i + 1] == CrashLists(results)[..i] + [results[i].crashes];
      counter := counter + results[i].counter;
      crashes := crashes + results[i].crashes;
    }
    assert Tables(results)[..|results|] == Tables(results) && Counters(results)[..|results|] == Counters(results);
    assert CrashLists(results)[..|results|] == CrashLists(results);
    best := MinTable(ms, size, top);
  }

  // ---------------------------------------------------------------- every file once

  lemma CountInRange(hi: nat, f: nat)
    requires f < hi
    ensures multiset(Range(0, hi))[f] == 1
  {
    var a, b := Range(0, f), Range(f + 1, hi);
    assert Range(0, hi) == a + [f] + b;
    assert f !in multiset(a) && f !in multiset(b);
  }

  /** In a completed run every file has been processed, once, by one worker. */
  lemma FileOnce(cfg: Config, s: State, f: nat) returns (w: nat, j: nat)
    requires cfg.Valid() && Inv(cfg, s) && Complete(cfg, s) && f < |cfg.traces|
    ensures w < |s.workers| && j < |s.workers[w].done| && s.workers[w].done[j] == f
    ensures forall v, i | 0 <= v < |s.workers| && 0 <= i < |s.workers[v].done| && s.workers[v].done[i] == f ::
      v == w && i == j
  {
    hide Inv, SumM, Complete, Range;
    CompleteIsDone(cfg, s);
    AllStopped(cfg, s);
    CountInRange(|cfg.traces|, f);
    var held := Held(s.workers);
    assert f in SumM(held);
    w := SumMFrom(held, f);
    assert f in multiset(s.workers[w].done);
    j :| 0 <= j < |s.workers[w].done| && s.workers[w].done[j] == f;
    forall v, i | 0 <= v < |s.workers| && 0 <= i < |s.workers[v].done| && s.workers[v].done[i] == f
      ensures v == w && i == j
    {
      assert f in held[v];
      if v < w {
        SumMUnique(held, v, w, f);
      } else if w < v {
        SumMUnique(held, w, v, f);
      } else {
        SumMHas(held, w, f);
        OnceInSeq(s.workers[w].done, i, j);
      }
    }
  }

  lemma TwiceInSeq(s: seq<nat>, lo: nat, hi: nat)
    requires lo < hi < |s| && s[lo] == s[hi]
    ensures multiset(s)[s[lo]] >= 2
  {
    assert s == s[..lo] + [s[lo]] + s[lo + 1..hi] + [s[hi]] + s[hi + 1..];
  }

  lemma OnceInSeq(s: seq<nat>, i: nat, j: nat)
    requires i < |s| && j < |s| && s[i] == s[j] && multiset(s)[s[i]] <= 1
    ensures i == j
  {
    if i < j {
      TwiceInSeq(s, i, j);
    } else if j < i {
      TwiceInSeq(s, j, i);
    }
  }

  // ---------------------------------------------------------------- the least file of every tuple

  lemma ArrivedAll(cfg: Config, s: State, w: nat) returns (i: nat)
    requires cfg.Valid() && Inv(cfg, s) && Complete(cfg, s) && w < |s.workers|
    ensures i < |s.gathered| && s.gathered[i] == w
  {
    hide SumM, SumN, FilesConserved, MessagesConserved, WorkersOk, Ordered, StopsConserved;
    CompleteIsDone(cfg, s);
    assert (multiset(s.results) + multiset(s.gathered))[w] == 1;
    assert w in multiset(s.gathered);
    i :| 0 <= i < |s.gathered| && s.gathered[i] == w;
  }

  lemma ArrivedInRange(cfg: Config, s: State)
    requires Inv(cfg, s)
    ensures forall i | 0 <= i < |s.gathered| :: s.gathered[i] < |s.workers|
  {
    hide SumM, SumN, FilesConserved, MessagesConserved, WorkersOk, Ordered, StopsConserved;
    forall i | 0 <= i < |s.gathered|
      ensures s.gathered[i] < |s.workers|
    {
      assert s.gathered[i] in multiset(s.results) + multiset(s.gathered);
    }
  }

  lemma WorkerTable(cfg: Config, s: State, w: nat)
    requires cfg.Valid() && Inv(cfg, s) && w < |s.workers|
    ensures var p := s.workers[w];
      && InRange(cfg, p.done) && |p.data.best| == cfg.maxTuple
      && forall t | 0 <= t < cfg.maxTuple :: IsBest(cfg, p.done, t, p.data.best[t]) && p.data.best[t] <= cfg.noFile
  {
    hide SumM, SumN, FilesConserved, MessagesConserved, Ordered, StopsConserved, ResultsConserved, IsBest;
    var p := s.workers[w];
    assert WorkerOk(cfg, w, p);
    BestTable(cfg, w, p.done);
    forall t | 0 <= t < cfg.maxTuple
      ensures p.data.best[t] <= cfg.noFile
    {
      BestBound(cfg, p.done, t, p.data.best[t]);
    }
  }

  lemma BestBound(cfg: Config, files: seq<nat>, t: nat, v: nat)
    requires cfg.Valid() && InRange(cfg, files) && IsBest(cfg, files, t, v)
    ensures v <= cfg.noFile
  {
  }

  /** The merged table. */
  function BestFiles(cfg: Config, s: State): seq<nat>
    requires forall i | 0 <= i < |s.gathered| :: s.gathered[i] < |s.workers|
    requires forall i | 0 <= i < |s.gathered| :: |Arrived(s)[i].best| == cfg.maxTuple
  {
    MinTable(Tables(Arrived(s)), cfg.maxTuple, cfg.noFile)
  }

  lemma ArrivedSizes(cfg: Config, s: State)
    requires cfg.Valid() && Inv(cfg, s)
    ensures forall i | 0 <= i < |s.gathered| :: s.gathered[i] < |s.workers|
    ensures forall i | 0 <= i < |s.gathered| :: |Arrived(s)[i].best| == cfg.maxTuple
  {
    hide Inv, IsBest;
    ArrivedInRange(cfg, s);
    forall i | 0 <= i < |s.gathered|
      ensures |Arrived(s)[i].best| == cfg.maxTuple
    {
      WorkerTable(cfg, s, s.gathered[i]);
    }
  }

  /**
   The merged table gives, for every tuple that occurs in some trace, the least file whose trace holds
   it: however many workers there are and however the batches were taken.
   */
  lemma MergedIsLeast(cfg: Config, s: State, t: nat)
    requires cfg.Valid() && Inv(cfg, s) && Complete(cfg, s) && t < cfg.maxTuple
    ensures (forall i | 0 <= i < |s.gathered| :: s.gathered[i] < |s.workers|)
      && forall i | 0 <= i < |s.gathered| :: |Arrived(s)[i].best| == cfg.maxTuple
    ensures Occurs(cfg, t) ==> IsLeast(cfg, t, BestFiles(cfg, s)[t])
    ensures !Occurs(cfg, t) ==> BestFiles(cfg, s)[t] == cfg.noFile
  {
    hide Inv, Complete, IsBest;
    ArrivedSizes(cfg, s);
    var tables := Tables(Arrived(s));
    forall i | 0 <= i < |tables|
      ensures InRange(cfg, s.workers[s.gathered[i]].done) && tables[i][t] <= cfg.noFile
      ensures IsBest(cfg, s.workers[s.gathered[i]].done, t, tables[i][t])
    {
      WorkerTable(cfg, s, s.gathered[i]);
    }
    MinTableIs(tables, cfg.maxTuple, cfg.noFile, t);
    var m := BestFiles(cfg, s)[t];
    if m != cfg.noFile {
      var i :| 0 <= i < |tables| && tables[i][t] == m;
      BestOccurs(cfg, s.workers[s.gathered[i]].done, t, m);
    }
    forall f | 0 <= f < |cfg.traces| && t in cfg.traces[f]
      ensures m <= f
    {
      var w, j := FileOnce(cfg, s, f);
      var i := ArrivedAll(cfg, s, w);
      BestBelow(cfg, s.workers[w].done, t, tables[i][t], f);
    }
  }

  lemma BestOccurs(cfg: Config, files: seq<nat>, t: nat, v: nat)
    requires InRange(cfg, files) && IsBest(cfg, files, t, v) && v != cfg.noFile
    ensures v < |cfg.traces| && t in cfg.traces[v]
  {
  }

  lemma BestBelow(cfg: Config, files: seq<nat>, t: nat, v: nat, f: nat)
    requires InRange(cfg, files) && IsBest(cfg, files, t, v) && f in files && t in cfg.traces[f] && f < cfg.noFile
    ensures v <= f
  {
  }
}
