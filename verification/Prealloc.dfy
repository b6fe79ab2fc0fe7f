/** The pool allocator of afl-prealloc.h: a fixed array of elements, with malloc once it is exhausted. */
module Prealloc {
  import opened Wrappers

  datatype Status = Unused | Used | Malloc

  /** An element: a slot of the pool, or one that malloc returned. */
  datatype Ref = Slot(index: nat) | Heap(id: nat)

  datatype Failure = OutOfMemory | NothingFound | AlreadyAllocated | Inconsistent | DoubleFree

  /** `heap` are the statuses of the elements from malloc; `next` is an address malloc has not used yet. */
  datatype State = State(slots: seq<Status>, counter: int, heap: map<nat, Status>, next: nat)

  type Outcome = (State, Result<Ref, Failure>)

  ghost predicate IsFirstUnused(slots: seq<Status>, i: nat) {
    i < |slots| && slots[i] == Unused && forall j | 0 <= j < i :: slots[j] != Unused
  }

  /** Where the scan stops: at the first unused slot, or past the end. */
  function FirstUnused(slots: seq<Status>): (i: nat)
    ensures i <= |slots| && (i < |slots| ==> IsFirstUnused(slots, i))
    ensures i == |slots| ==> forall j | 0 <= j < |slots| :: slots[j] != Unused
  {
    if slots == [] then 0 else if slots[0] == Unused then 0
    else
      var i := FirstUnused(slots[1..]);
      assert forall j | 0 < j < |slots| :: slots[j] == slots[1..][j - 1];
      i + 1
  }

  /** PRE_ALLOC with the element pointer null before; `granted` is malloc's answer. */
  function Alloc(s: State, granted: bool): Outcome {
    if s.counter >= |s.slots| then
      if !granted then (s, Failure(OutOfMemory))
      else (s.(heap := s.heap[s.next := Malloc], next := s.next + 1), Success(Heap(s.next)))
    else
      var i := FirstUnused(s.slots);
      if i < |s.slots| then (s.(slots := s.slots[i := Used], counter := s.counter + 1), Success(Slot(i)))
      else if |s.slots| > 0 then (s, Success(Slot(|s.slots| - 1)))
      else (s, Failure(NothingFound))
  }

  /** PRE_ALLOC_FORCE of slot `i`. */
  function Force(s: State, i: nat): Outcome
    requires i < |s.slots|
  {
    if s.slots[i] != Unused then (s, Failure(AlreadyAllocated))
    else (s.(slots := s.slots[i := Used], counter := s.counter + 1), Success(Slot(i)))
  }

  predicate Exists(s: State, r: Ref) {
    match r
    case Slot(i) => i < |s.slots|
    case Heap(id) => id in s.heap
  }

  function StatusOf(s: State, r: Ref): Status
    requires Exists(s, r)
  {
    match r
    case Slot(i) => s.slots[i]
    case Heap(id) => s.heap[id]
  }

  /** PRE_FREE of an element that still exists. */
  function Free(s: State, r: Ref): Outcome
    requires Exists(s, r)
  {
    match StatusOf(s, r)
    case Used =>
      var now := if r.Slot? then s.(slots := s.slots[r.index := Unused]) else s.(heap := s.heap[r.id := Unused]);
      (now.(counter := s.counter - 1), if s.counter - 1 < 0 then Failure(Inconsistent) else Success(r))
    case Malloc =>
      (if r.Slot? then s.(slots := s.slots[r.index := Unused]) else s.(heap := s.heap - {r.id}), Success(r))
    case Unused => (s, Failure(DoubleFree))
  }

  class Pool {
    const slots: array<Status>
    var counter: int
    var heap: map<nat, Status>
    var next: nat

    ghost function Now(): State
      reads this, slots
    {
      State(slots[..], counter, heap, next)
    }

    constructor (size: nat)
      ensures fresh(slots) && Now() == Start(size)
    {
      slots := new Status[size](_ => Unused);
      counter := 0;
      heap := map[];
      next := 0;
      new;
      assert slots[..] == Start(size).slots;
    }

    method PreAlloc(granted: bool) returns (r: Result<Ref, Failure>)
      modifies this, slots
      ensures (Now(), r) == Alloc(old(Now()), granted)
    {
      var el: Option<Ref> := None;
      if counter >= slots.Length {
        if !granted {
          return Failure(OutOfMemory);
        }
        heap := heap[next := Malloc];
        next := next + 1;
        el := Some(Heap(next - 1));
      } else {
        ghost var first := FirstUnused(slots[..]);
        var i := 0;
        while i < slots.Length
          invariant 0 <= i <= first && Now() == old(Now())
          invariant el == if i == 0 then None else Some(Slot(i - 1))
        {
          el := Some(Slot(i));
          if slots[i] == Unused {
            counter := counter + 1;
            slots[i] := Used;
            break;
          }
          i := i + 1;
        }
      }
      r := if el.None? then Failure(NothingFound) else Success(el.value);
    }

    method PreAllocForce(i: nat) returns (r: Result<Ref, Failure>)
      requires i < slots.Length
      modifies this, slots
      ensures (Now(), r) == Force(old(Now()), i)
    {
      if slots[i] != Unused {
        return Failure(AlreadyAllocated);
      }
      slots[i] := Used;
      counter := counter + 1;
      r := Success(Slot(i));
    }

    method PreFree(el: Ref) returns (r: Result<Ref, Failure>)
      requires Exists(Now(), el)
      modifies this, slots
      ensures (Now(), r) == Free(old(Now()), el)
    {
      var status := match el case Slot(i) => slots[i] case Heap(id) => heap[id];
      match status {
        case Used =>
          SetUnused(el);
          counter := counter - 1;
          if counter < 0 {
            return Failure(Inconsistent);
          }
          r := Success(el);
        case Malloc =>
          SetUnused(el);
          if el.Heap? {
            assert heap - {el.id} == old(heap) - {el.id};
            heap := heap - {el.id};
          }
          r := Success(el);
        case Unused =>
          r := Failure(DoubleFree);
      }
    }

    method SetUnused(el: Ref)
      requires Exists(Now(), el)
      modifies this`heap, slots
      ensures el.Slot? ==> slots[..] == old(slots[..])[el.index := Unused] && heap == old(heap)
      ensures el.Heap? ==> slots[..] == old(slots[..]) && heap == old(heap)[el.id := Unused]
    {
      match el
      case Slot(i) => slots[i] := Unused;
      case Heap(id) => heap := heap[id := Unused];
    }
  }

  // ---------------------------------------------------------------- every reachable state

  function Start(size: nat): State {
    State(seq(size, _ => Unused), 0, map[], 0)
  }

  /** The slots in use. */
  function UsedSlots(slots: seq<Status>): set<nat> {
    set i | 0 <= i < |slots| && slots[i] == Used
  }

  /**
   The elements that clients hold are exactly those not marked as free,
   and the counter counts the slots among them.
   */
  ghost predicate Consistent(s: State, held: set<Ref>) {
    && s.counter == |UsedSlots(s.slots)|
    && (forall i | 0 <= i < |s.slots| :: s.slots[i] != Malloc)
    && (forall id | id in s.heap :: id < s.next && s.heap[id] == Malloc)
    && (forall i: nat :: Slot(i) in held <==> i < |s.slots| && s.slots[i] == Used)
    && (forall id: nat :: Heap(id) in held <==> id in s.heap)
  }

  /** A counter below the size means that some slot is unused, and the other way round. */
  lemma {:induction false} CountUsed(slots: seq<Status>)
    requires forall i | 0 <= i < |slots| :: slots[i] != Malloc
    ensures |UsedSlots(slots)| <= |slots|
    ensures |UsedSlots(slots)| == |slots| <==> forall i | 0 <= i < |slots| :: slots[i] == Used
    decreases |slots|
  {
    if slots == [] {
      assert UsedSlots(slots) == {};
    } else {
      var last := |slots| - 1;
      var rest := UsedSlots(slots[..last]);
      assert forall i | 0 <= i < last :: slots[i] == slots[..last][i];
      CountUsed(slots[..last]);
      assert UsedSlots(slots) == if slots[last] == Used then rest + {last} else rest;
      assert last !in rest;
    }
  }

  lemma UseSlot(slots: seq<Status>, i: nat)
    requires i < |slots| && slots[i] == Unused
    ensures |UsedSlots(slots[i := Used])| == |UsedSlots(slots)| + 1
  {
    assert UsedSlots(slots[i := Used]) == UsedSlots(slots) + {i};
    assert i !in UsedSlots(slots);
  }

  lemma FreeSlot(slots: seq<Status>, i: nat)
    requires i < |slots| && slots[i] == Used
    ensures |UsedSlots(slots[i := Unused])| == |UsedSlots(slots)| - 1
  {
    var freed := slots[i := Unused];
    assert freed[i := Used] == slots;
    UseSlot(freed, i);
  }

  /** An element handed out was held by nobody; it comes from malloc exactly when all slots are held. */
  lemma AllocKeeps(s: State, held: set<Ref>, granted: bool)
    requires Consistent(s, held)
    ensures var (now, r) := Alloc(s, granted);
      match r
      case Success(el) =>
        && el !in held && Consistent(now, held + {el})
        && (el.Heap? <==> forall i | 0 <= i < |s.slots| :: Slot(i) in held)
        && (el.Slot? ==> el.index < |s.slots| && forall i | 0 <= i < el.index :: Slot(i) in held)
      case Failure(f) =>
        f == OutOfMemory && !granted && now == s && forall i | 0 <= i < |s.slots| :: Slot(i) in held
  {
    CountUsed(s.slots);
    if s.counter < |s.slots| {
      var i := FirstUnused(s.slots);
      UseSlot(s.slots, i);
    }
  }

  /** A slot can be taken by force exactly when nobody holds it. */
  lemma ForceKeeps(s: State, held: set<Ref>, i: nat)
    requires Consistent(s, held) && i < |s.slots|
    ensures var (now, r) := Force(s, i);
      if Slot(i) in held then now == s && r == Failure(AlreadyAllocated)
      else r == Success(Slot(i)) && Consistent(now, held + {Slot(i)})
  {
    if s.slots[i] == Unused {
      UseSlot(s.slots, i);
    }
  }

  /** Freeing succeeds exactly on held elements. */
  lemma FreeKeeps(s: State, held: set<Ref>, r: Ref)
    requires Consistent(s, held) && Exists(s, r)
    ensures var (now, out) := Free(s, r);
      if r in held then out == Success(r) && Consistent(now, held - {r})
      else out == Failure(DoubleFree) && now == s
  {
    match r
    case Slot(i) =>
      if s.slots[i] == Used {
        FreeSlot(s.slots, i);
      }
    case Heap(id) =>
  }

  // ---------------------------------------------------------------- runs

  /** What clients do; only elements that somebody holds, or slots, are freed. */
  datatype Op = DoAlloc(granted: bool) | DoForce(slot: nat) | DoFree(el: Ref)

  predicate Proper(s: State, op: Op) {
    match op
    case DoAlloc(_) => true
    case DoForce(i) => i < |s.slots|
    case DoFree(el) => Exists(s, el)
  }

  function Do(s: State, op: Op): Outcome
    requires Proper(s, op)
  {
    match op
    case DoAlloc(granted) => Alloc(s, granted)
    case DoForce(i) => Force(s, i)
    case DoFree(el) => Free(s, el)
  }

  function HeldAfter(held: set<Ref>, op: Op, r: Result<Ref, Failure>): set<Ref> {
    if r.Failure? then held else if op.DoFree? then held - {r.value} else held + {r.value}
  }

  /** The operations lead from `s` to `t`, the program going on as long as nothing is fatal. */
  ghost predicate RunsTo(s: State, held: set<Ref>, ops: seq<Op>, t: State, heldAfter: set<Ref>)
    decreases |ops|
  {
    if ops == [] then s == t && held == heldAfter
    else
      Proper(s, ops[0]) &&
      var (now, r) := Do(s, ops[0]);
      r.Success? && RunsTo(now, HeldAfter(held, ops[0], r), ops[1..], t, heldAfter)
  }

  /** In every state that clients can bring about, the pool agrees with what they hold. */
  lemma {:induction false} EveryRun(s: State, held: set<Ref>, ops: seq<Op>, t: State, heldAfter: set<Ref>)
    requires Consistent(s, held) && RunsTo(s, held, ops, t, heldAfter)
    ensures Consistent(t, heldAfter) && |t.slots| == |s.slots|
    decreases |ops|
  {
    hide Consistent, Alloc, Free, Force;
    if ops != [] {
      var (now, r) := Do(s, ops[0]);
      StepKeeps(s, held, ops[0]);
      EveryRun(now, HeldAfter(held, ops[0], r), ops[1..], t, heldAfter);
    }
  }

  lemma StepKeeps(s: State, held: set<Ref>, op: Op)
    requires Consistent(s, held) && Proper(s, op)
    ensures var (now, r) := Do(s, op);
      Consistent(now, HeldAfter(held, op, r)) && |now.slots| == |s.slots|
  {
    hide Consistent;
    match op
    case DoAlloc(granted) => AllocKeeps(s, held, granted);
    case DoForce(i) => ForceKeeps(s, held, i);
    case DoFree(el) => FreeKeeps(s, held, el);
  }

  lemma StartConsistent(size: nat)
    ensures Consistent(Start(size), {})
  {
    assert UsedSlots(Start(size).slots) == {};
  }

  /** From an empty pool: held and counted agree after every run. */
  lemma PoolInvariant(size: nat, ops: seq<Op>, t: State, held: set<Ref>)
    requires RunsTo(Start(size), {}, ops, t, held)
    ensures Consistent(t, held) && |t.slots| == size
    ensures t.counter == |set i: nat | i < size && Slot(i) in held|
  {
    StartConsistent(size);
    EveryRun(Start(size), {}, ops, t, held);
    assert (set i: nat | i < size && Slot(i) in held) == UsedSlots(t.slots);
  }
}
