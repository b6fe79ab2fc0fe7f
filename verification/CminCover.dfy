/** The two selection phases of afl-cmin.py: the files with a tuple of their own, then the rarest tuples first. */
module CminCover {
  import opened CminPack
  import opened CminWorker
  import opened CminWorkerLaws
  import opened CminProtocol
  import opened CminProtocolLaws
  import opened CminResult
  import opened CminTotals

  // ---------------------------------------------------------------- what a set of files covers

  function TupleSet(trace: Trace): (r: set<nat>)
    ensures forall t :: t in r <==> t in trace
  {
    set t | t in trace
  }

  /** The tuples of the traces of `files`. */
  function Cover(cfg: Config, files: seq<nat>): set<nat>
    requires InRange(cfg, files)
  {
    if files == [] then {} else Cover(cfg, files[..|files| - 1]) + TupleSet(cfg.traces[files[|files| - 1]])
  }

  function AllTuples(cfg: Config): set<nat> {
    Cover(cfg, Range(0, |cfg.traces|))
  }

  lemma CoverSnoc(cfg: Config, files: seq<nat>, f: nat)
    requires InRange(cfg, files) && f < |cfg.traces|
    ensures InRange(cfg, files + [f])
    ensures Cover(cfg, files + [f]) == Cover(cfg, files) + TupleSet(cfg.traces[f])
  {
    assert (files + [f])[..|files|] == files;
  }

  lemma {:induction false} CoverHas(cfg: Config, files: seq<nat>, t: nat)
    requires InRange(cfg, files)
    ensures t in Cover(cfg, files) <==> exists i :: 0 <= i < |files| && t in cfg.traces[files[i]]
    decreases |files|
  {
    if files != [] {
      var last := |files| - 1;
      CoverHas(cfg, files[..last], t);
      if t in Cover(cfg, files[..last]) {
        var i :| 0 <= i < |files[..last]| && t in cfg.traces[files[..last][i]];
        assert t in cfg.traces[files[i]];
      }
      forall i | 0 <= i < last && t in cfg.traces[files[i]]
        ensures t in Cover(cfg, files)
      {
        assert files[..last][i] == files[i];
      }
    }
  }

  lemma AllTuplesOccur(cfg: Config, t: nat)
    ensures t in AllTuples(cfg) <==> Occurs(cfg, t)
    ensures t in AllTuples(cfg) <==> t in Total(cfg)
  {
    hide SumM;
    var all := Range(0, |cfg.traces|);
    CoverHas(cfg, all, t);
    if Occurs(cfg, t) {
      var f :| 0 <= f < |cfg.traces| && t in cfg.traces[f];
      assert t in cfg.traces[all[f]];
      SumMHas(TraceBags(cfg), f, t);
      assert t in TraceBags(cfg)[f];
    }
    if t in Total(cfg) {
      var f := SumMFrom(TraceBags(cfg), t);
      assert t in cfg.traces[f];
    }
  }

  // ---------------------------------------------------------------- what the phases have to achieve

  /** The files with a tuple that occurs nowhere else. */
  ghost predicate IsForced(cfg: Config, f: nat) {
    f < |cfg.traces| && exists t :: t in cfg.traces[f] && Total(cfg)[t] == 1
  }

  /**
   Saving `saved[i]` was called for by tuple `t`: the file is the least with `t`, no file saved before
   has `t`, and every tuple rarer than `t` was covered already.
   */
  ghost predicate CalledFor(cfg: Config, saved: seq<nat>, i: nat, t: nat)
    requires InRange(cfg, saved) && i < |saved|
  {
    && IsLeast(cfg, t, saved[i])
    && t !in Cover(cfg, saved[..i])
    && forall u | u in Total(cfg) && Total(cfg)[u] < Total(cfg)[t] :: u in Cover(cfg, saved[..i])
  }

  ghost predicate Wanted(cfg: Config, saved: seq<nat>, i: nat)
    requires InRange(cfg, saved) && i < |saved|
  {
    exists t :: CalledFor(cfg, saved, i, t)
  }

  /** Each saved file was called for by some tuple. */
  ghost predicate AllCalledFor(cfg: Config, saved: seq<nat>) {
    InRange(cfg, saved) && forall i | 0 <= i < |saved| :: Wanted(cfg, saved, i)
  }

  lemma CalledForSnoc(cfg: Config, saved: seq<nat>, f: nat, t: nat)
    requires AllCalledFor(cfg, saved) && IsLeast(cfg, t, f) && t !in Cover(cfg, saved)
    requires forall u | u in Total(cfg) && Total(cfg)[u] < Total(cfg)[t] :: u in Cover(cfg, saved)
    ensures AllCalledFor(cfg, saved + [f])
  {
    hide Cover, Total, IsLeast;
    var more := saved + [f];
    LeastInRange(cfg, t, f);
    assert more[..|saved|] == saved;
    forall i | 0 <= i < |more|
      ensures Wanted(cfg, more, i)
    {
      if i < |saved| {
        assert Wanted(cfg, saved, i);
        var u :| CalledFor(cfg, saved, i, u);
        assert more[..i] == saved[..i];
        assert CalledFor(cfg, more, i, u);
      } else {
        assert CalledFor(cfg, more, i, t);
      }
    }
  }

  lemma LeastInRange(cfg: Config, t: nat, f: nat)
    requires IsLeast(cfg, t, f)
    ensures f < |cfg.traces| && t in cfg.traces[f] && Occurs(cfg, t)
  {
  }

  /** No file is saved twice. */
  lemma SavedOnce(cfg: Config, saved: seq<nat>, i: nat, j: nat)
    requires AllCalledFor(cfg, saved) && i < j < |saved|
    ensures saved[i] != saved[j]
  {
    hide Cover, Total;
    assert Wanted(cfg, saved, j);
    var t :| CalledFor(cfg, saved, j, t);
    CoverHas(cfg, saved[..j], t);
    assert saved[..j][i] == saved[i];
  }

  /** Every saved file brings in a tuple of its own, so there are no more of them than tuples. */
  lemma {:induction false} SavedBound(cfg: Config, saved: seq<nat>, n: nat)
    requires AllCalledFor(cfg, saved) && n <= |saved|
    ensures n <= |Cover(cfg, saved[..n])| && Cover(cfg, saved[..n]) <= AllTuples(cfg)
    decreases n
  {
    hide Total, Cover, AllTuples;
    if n > 0 {
      SavedBound(cfg, saved, n - 1);
      assert saved[..n] == saved[..n - 1] + [saved[n - 1]];
      CoverSnoc(cfg, saved[..n - 1], saved[n - 1]);
      assert Wanted(cfg, saved, n - 1);
      var t :| CalledFor(cfg, saved, n - 1, t);
      var before, now := Cover(cfg, saved[..n - 1]), Cover(cfg, saved[..n]);
      LeastInRange(cfg, t, saved[n - 1]);
      assert t in now && t !in before;
      Larger(before, now, t);
      TraceCovered(cfg, saved[n - 1]);
    } else {
      NothingCovered(cfg, saved[..0]);
    }
  }

  lemma NothingCovered(cfg: Config, files: seq<nat>)
    requires files == []
    ensures Cover(cfg, files) == {}
  {
  }

  lemma Larger(a: set<nat>, b: set<nat>, t: nat)
    requires a <= b && t in b && t !in a
    ensures |a| < |b|
  {
    assert b == (b - a) + a && t in b - a;
    assert |b| == |b - a| + |a|;
  }

  lemma TraceCovered(cfg: Config, f: nat)
    requires f < |cfg.traces|
    ensures TupleSet(cfg.traces[f]) <= AllTuples(cfg)
  {
    hide AllTuples, Total;
    forall t | t in cfg.traces[f]
      ensures t in AllTuples(cfg)
    {
      AllTuplesOccur(cfg, t);
    }
  }

  /** A tuple that occurs once occurs in one file only. */
  lemma OnlyFile(cfg: Config, t: nat, f: nat, g: nat)
    requires f < |cfg.traces| && g < |cfg.traces| && t in cfg.traces[f] && t in cfg.traces[g] && Total(cfg)[t] == 1
    ensures f == g
  {
    hide SumM;
    if f < g {
      SumMUnique(TraceBags(cfg), f, g, t);
    } else if g < f {
      SumMUnique(TraceBags(cfg), g, f, t);
    }
  }

  /** No sub-corpus with full coverage can do without a forced file. */
  lemma ForcedEverywhere(cfg: Config, files: seq<nat>, f: nat)
    requires InRange(cfg, files) && Cover(cfg, files) == AllTuples(cfg) && IsForced(cfg, f)
    ensures f in files
  {
    hide Total, Cover, AllTuples;
    var t :| t in cfg.traces[f] && Total(cfg)[t] == 1;
    AllTuplesOccur(cfg, t);
    CoverHas(cfg, files, t);
    var i :| 0 <= i < |files| && t in cfg.traces[files[i]];
    OnlyFile(cfg, t, f, files[i]);
  }

  /** Files come sorted by size, so the least file with a tuple is a smallest one. */
  lemma SavedIsSmallest(cfg: Config, sizes: seq<nat>, saved: seq<nat>, i: nat) returns (t: nat)
    requires AllCalledFor(cfg, saved) && i < |saved|
    requires |sizes| == |cfg.traces| && forall a, b | 0 <= a <= b < |sizes| :: sizes[a] <= sizes[b]
    ensures t in cfg.traces[saved[i]] && t !in Cover(cfg, saved[..i])
    ensures forall g | 0 <= g < |cfg.traces| && t in cfg.traces[g] :: sizes[saved[i]] <= sizes[g]
  {
    hide Cover, Total;
    assert Wanted(cfg, saved, i);
    t :| CalledFor(cfg, saved, i, t);
  }
}
