/**
 The loop of MUT_SHUFFLE: from the last place down, each place trades with an earlier one.  The origins of
 the bytes form one cycle through the whole block (Sattolo's algorithm).
 */
module HavocShuffle {
  import opened HavocEdits

  function Traded<T>(s: seq<T>, i: nat, j: nat): (r: seq<T>)
    requires i < |s| && j < |s|
    ensures |r| == |s|
  {
    s[i := s[j]][j := s[i]]
  }

  /** Partners for the places n - 1 down to 1: each below its place. */
  ghost predicate Partners(js: seq<nat>, n: nat) {
    1 <= n && |js| == n - 1 && forall k | 0 <= k < |js| :: js[k] < n - 1 - k
  }

  /** The first `n` places of `s` after the loop. */
  function Shuffled<T>(s: seq<T>, n: nat, js: seq<nat>): (r: seq<T>)
    requires Partners(js, n) && n <= |s|
    ensures |r| == |s|
    decreases n
  {
    if n == 1 then s else Shuffled(Traded(s, n - 1, js[0]), n - 1, js[1..])
  }

  /** Where each of the first `n` bytes comes from. */
  function Origins(n: nat, js: seq<nat>): (p: seq<nat>)
    requires Partners(js, n)
    ensures |p| == n && forall k | 0 <= k < n :: p[k] < n
    decreases n
  {
    if n == 1 then [0]
    else
      var q := Origins(n - 1, js[1..]);
      seq(n - 1, k requires 0 <= k < n - 1 => if q[k] == js[0] then n - 1 else q[k]) + [js[0]]
  }

  /** The loop moves every byte to where `Origins` says, and leaves the rest alone. */
  lemma {:induction false} ShuffledIs<T>(s: seq<T>, n: nat, js: seq<nat>)
    requires Partners(js, n) && n <= |s|
    ensures forall k | 0 <= k < n :: Shuffled(s, n, js)[k] == s[Origins(n, js)[k]]
    ensures forall k | n <= k < |s| :: Shuffled(s, n, js)[k] == s[k]
    decreases n
  {
    if n > 1 {
      var t := Traded(s, n - 1, js[0]);
      ShuffledIs(t, n - 1, js[1..]);
    }
  }

  // ---------------------------------------------------------------- one cycle

  /** `order` runs through all places once, each being the origin of the one before it, round and round. */
  ghost predicate CycleOrder(p: seq<nat>, order: seq<nat>) {
    && |order| == |p| > 0
    && (forall m | 0 <= m < |order| :: order[m] < |p|)
    && (forall l, m | 0 <= l < m < |order| :: order[l] != order[m])
    && (forall m | 0 <= m < |order| - 1 :: p[order[m]] == order[m + 1])
    && p[order[|order| - 1]] == order[0]
  }

  ghost predicate SingleCycle(p: seq<nat>) {
    exists order: seq<nat> :: CycleOrder(p, order)
  }

  /** An order without repetition through n places meets every place. */
  lemma {:induction false} OrderMeets(order: seq<nat>, n: nat, x: nat) returns (m: nat)
    requires |order| == n && x < n && forall l | 0 <= l < n :: order[l] < n
    requires forall l, m | 0 <= l < m < n :: order[l] != order[m]
    ensures m < n && order[m] == x
    decreases n
  {
    if l :| 0 <= l < n && order[l] == n - 1 {
      if x == n - 1 {
        m := l;
      } else {
        var rest := order[..l] + order[l + 1..];
        forall i | 0 <= i < n - 1
          ensures rest[i] < n - 1
        {
          assert rest[i] == order[if i < l then i else i + 1];
        }
        var k := OrderMeets(rest, n - 1, x);
        m := if k < l then k else k + 1;
      }
    } else {
      m := 0;
      NoRoom(order, n);
    }
  }

  /** n different numbers do not fit below n - 1. */
  lemma {:induction false} NoRoom(order: seq<nat>, n: nat)
    requires |order| == n > 0 && forall l | 0 <= l < n :: order[l] < n - 1
    requires forall l, m | 0 <= l < m < n :: order[l] != order[m]
    ensures false
    decreases n
  {
    var top := order[n - 1];
    if n > 1 {
      // trade `top` for the largest number, then drop the last entry
      var rest := seq(n - 1, i requires 0 <= i < n - 1 => if order[i] == n - 2 then top else order[i]);
      forall i | 0 <= i < n - 1
        ensures rest[i] < n - 2
      {
        assert order[i] != top;
      }
      NoRoom(rest, n - 1);
    }
  }

  lemma {:induction false} ShuffleIsOneCycle(n: nat, js: seq<nat>)
    requires Partners(js, n)
    ensures SingleCycle(Origins(n, js))
    decreases n
  {
    var p := Origins(n, js);
    if n == 1 {
      assert CycleOrder(p, [0]);
    } else {
      var q, j := Origins(n - 1, js[1..]), js[0];
      ShuffleIsOneCycle(n - 1, js[1..]);
      var order: seq<nat> :| CycleOrder(q, order);
      var m := OrderMeets(order, n - 1, j);
      CycleGrows(q, p, order, m);
    }
  }

  lemma NewOrder(order: seq<nat>, m: nat, n: nat)
    requires m < |order| == n && forall l | 0 <= l < n :: order[l] < n
    requires forall l, k | 0 <= l < k < n :: order[l] != order[k]
    ensures var more := order[..m] + [n] + order[m..];
      && (forall l | 0 <= l <= n :: more[l] == if l < m then order[l] else if l == m then n else order[l - 1])
      && (forall l | 0 <= l <= n :: more[l] < n + 1)
      && (forall l, k | 0 <= l < k <= n :: more[l] != more[k])
  {
  }

  /** The new last place goes into the cycle right before place `j`. */
  lemma CycleGrows(q: seq<nat>, p: seq<nat>, order: seq<nat>, m: nat)
    requires CycleOrder(q, order) && m < |order| && |p| == |q| + 1
    requires p[|q|] == order[m]
    requires forall k | 0 <= k < |q| :: p[k] == if q[k] == order[m] then |q| else q[k]
    ensures CycleOrder(p, order[..m] + [|q|] + order[m..])
  {
    var n := |q|;
    var more := order[..m] + [n] + order[m..];
    NewOrder(order, m, n);
    forall l | 0 <= l < |more| - 1
      ensures p[more[l]] == more[l + 1]
    {
      if l < m - 1 {
        assert q[order[l]] == order[l + 1] != order[m];
      } else if l == m - 1 {
        assert q[order[l]] == order[m];
      } else if l > m {
        assert q[order[l - 1]] == order[l] != order[m];
      }
    }
    if m == 0 {
      assert q[order[n - 1]] == order[0];
    } else {
      assert q[order[n - 1]] == order[0] != order[m];
    }
  }

  /** In a block of two bytes or more no place keeps its byte's origin. */
  lemma NoFixedPlace(p: seq<nat>, k: nat)
    requires SingleCycle(p) && 2 <= |p| && k < |p|
    ensures p[k] != k
  {
    var order: seq<nat> :| CycleOrder(p, order);
    var m := OrderMeets(order, |p|, k);
    if m < |p| - 1 {
      assert p[order[m]] == order[m + 1];
    } else {
      assert p[order[m]] == order[0];
    }
  }

  /** A single cycle takes every place from somewhere else: it is a permutation. */
  lemma CycleIsPermutation(p: seq<nat>)
    requires SingleCycle(p)
    ensures IsPermutation(p)
  {
    var n := |p|;
    var order: seq<nat> :| CycleOrder(p, order);
    forall i | 0 <= i < n
      ensures p[i] < n
    {
      var m := OrderMeets(order, n, i);
      assert p[i] == order[if m < n - 1 then m + 1 else 0];
    }
    forall i, j | 0 <= i < j < n
      ensures p[i] != p[j]
    {
      var a := OrderMeets(order, n, i);
      var b := OrderMeets(order, n, j);
      assert p[i] == order[if a < n - 1 then a + 1 else 0];
      assert p[j] == order[if b < n - 1 then b + 1 else 0];
    }
  }

  // ---------------------------------------------------------------- every cycle, once

  /** Different draws shuffle differently. */
  lemma {:induction false} DrawsMatter(n: nat, js: seq<nat>, js': seq<nat>)
    requires Partners(js, n) && Partners(js', n) && Origins(n, js) == Origins(n, js')
    ensures js == js'
    decreases n
  {
    if n > 1 {
      var p, j := Origins(n, js), js[0];
      var q, q' := Origins(n - 1, js[1..]), Origins(n - 1, js'[1..]);
      assert p[n - 1] == js[0] == js'[0];
      forall k | 0 <= k < n - 1
        ensures q[k] == q'[k]
      {
        assert p[k] == if q[k] == j then n - 1 else q[k];
        assert p[k] == if q'[k] == j then n - 1 else q'[k];
      }
      DrawsMatter(n - 1, js[1..], js'[1..]);
      assert js == [js[0]] + js[1..] && js' == [js'[0]] + js'[1..];
    }
  }

  /** Every single cycle comes from some draws; with `DrawsMatter`, from exactly one list of them. */
  lemma {:induction false} EveryCycleIsDrawn(p: seq<nat>) returns (js: seq<nat>)
    requires SingleCycle(p)
    ensures Partners(js, |p|) && Origins(|p|, js) == p
    decreases |p|
  {
    var n := |p|;
    var order: seq<nat> :| CycleOrder(p, order);
    if n == 1 {
      js := [];
    } else {
      CycleIsPermutation(p);
      NoFixedPlace(p, n - 1);
      var j := p[n - 1];
      var q := seq(n - 1, k requires 0 <= k < n - 1 => if p[k] == n - 1 then j else p[k]);
      var m := OrderMeets(order, n, n - 1);
      CycleShrinks(p, q, order, m);
      var rest := EveryCycleIsDrawn(q);
      js := [j] + rest;
      assert js[1..] == rest;
      forall k | 0 <= k < n
        ensures Origins(n, js)[k] == p[k]
      {
        if k < n - 1 {
          assert p[k] != j;
        }
      }
    }
  }

  /** Taking the last place out of a cycle leaves a cycle. */
  lemma CycleShrinks(p: seq<nat>, q: seq<nat>, order: seq<nat>, m: nat)
    requires CycleOrder(p, order) && 2 <= |p| && |q| == |p| - 1 && m < |p| && order[m] == |q|
    requires forall k | 0 <= k < |q| :: q[k] == if p[k] == |q| then p[|q|] else p[k]
    ensures SingleCycle(q)
  {
    var n := |p|;
    var rest := order[..m] + order[m + 1..];
    forall l | 0 <= l < n - 1
      ensures rest[l] == order[if l < m then l else l + 1] && rest[l] < n - 1
    {
    }
    forall l | 0 <= l < n - 2
      ensures q[rest[l]] == rest[l + 1]
    {
      if l == m - 1 {
        assert p[order[l]] == n - 1 && p[n - 1] == order[l + 2];
      } else if l < m {
        assert p[order[l]] == order[l + 1];
      } else {
        assert p[order[l + 1]] == order[l + 2];
      }
    }
    assert q[rest[n - 2]] == rest[0] by {
      if m == n - 1 {
        assert p[order[n - 2]] == n - 1 && p[n - 1] == order[0];
      } else if m == 0 {
        assert p[order[n - 1]] == n - 1 && p[n - 1] == order[1];
      } else {
        assert p[order[n - 1]] == order[0];
      }
    }
    assert CycleOrder(q, rest);
  }
}
