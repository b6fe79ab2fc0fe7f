/** `afl_realloc` of alloc-inl.h: buffers that grow geometrically. */
module Alloc {
  import opened Bytes
  import opened Bits

  /** AFL_ALLOC_SIZE_OFFSET: the stored size in front of the contents. */
  const HEADER: nat := 8

  const INITIAL_GROWTH_SIZE: nat := 64

  /** The memory behind a buffer pointer: `complete` bytes of which the first HEADER hold the size. */
  datatype Block = Null | Block(complete: nat, contents: seq<Byte>) {
    ghost predicate Valid() {
      Block? ==> HEADER <= complete < SIZE_MOD && |contents| == complete - HEADER
    }

    function Current(): nat {
      if Null? then 0 else complete
    }

    function Capacity(): nat {
      if Null? then 0 else |contents|
    }
  }

  function NextSize(total: nat): (size: nat)
    requires total < SIZE_MOD
    ensures total <= size < SIZE_MOD && INITIAL_GROWTH_SIZE <= size
  {
    NextPow2Otherwise(total);
    if total < INITIAL_GROWTH_SIZE then INITIAL_GROWTH_SIZE
    else if NextPow2(total) == 0 then total else NextPow2(total)
  }

  function Zeros(n: nat): (r: seq<Byte>)
    ensures |r| == n && forall i | 0 <= i < n :: r[i] == 0
  {
    seq(n, _ => 0)
  }

  /** The block after `afl_realloc(&buf, needed)`; `granted` says what the system's realloc answers. */
  function Reserved(b: Block, needed: nat, granted: bool): (r: Block)
    requires b.Valid() && needed < SIZE_MOD
    ensures r.Valid()
  {
    var total := (needed + HEADER) % SIZE_MOD;
    if b.Current() >= total then b
    else if !granted then Null
    else
      var size := NextSize(total);
      var kept := if b.Null? then [] else b.contents;
      Block(size, kept + Zeros(size - HEADER - |kept|))
  }

  class Buffer {
    var present: bool
    var completeSize: nat
    var data: array<Byte>

    ghost predicate Valid()
      reads this, data
    {
      State().Valid()
    }

    ghost function State(): Block
      reads this, data
    {
      if present then Block(completeSize, data[..]) else Null
    }

    constructor ()
      ensures Valid() && State() == Null
    {
      present := false;
      completeSize := 0;
      data := new Byte[0];
    }

    /** `afl_realloc` */
    method Reserve(needed: nat, granted: bool) returns (ok: bool)
      requires Valid() && needed < SIZE_MOD
      modifies this
      ensures Valid() && State() == Reserved(old(State()), needed, granted)
      ensures ok == present
    {
      hide NextPow2;
      var current := if present then completeSize else 0;
      var total := (needed + HEADER) % SIZE_MOD;
      if current >= total {
        return present;
      }
      var next;
      if total < INITIAL_GROWTH_SIZE {
        next := INITIAL_GROWTH_SIZE;
      } else {
        next := NextPow2Steps(total);
        if next == 0 {
          next := total;
        }
      }
      assert next == NextSize(total);
      if !granted {
        present := false;
        return false;
      }
      ghost var kept := if present then data[..] else [];
      var newer := SystemRealloc(next - HEADER);
      ZeroTail(newer, if current == 0 then 0 else current - HEADER);
      assert newer[..] == newer[..|kept|] + newer[|kept|..];
      assert newer[..] == kept + Zeros(next - HEADER - |kept|);
      data := newer;
      completeSize := next;
      present := true;
      ok := true;
    }

    /** The system's `realloc`: a block of the new size that starts with the old contents; the rest is arbitrary. */
    method SystemRealloc(size: nat) returns (newer: array<Byte>)
      requires Valid() && (present ==> data.Length <= size)
      ensures fresh(newer) && newer.Length == size
      ensures present ==> newer[..data.Length] == data[..]
    {
      newer := new Byte[size];
      if present {
        for i := 0 to data.Length
          invariant newer[..i] == data[..i]
        {
          newer[i] := data[i];
        }
      }
    }

    /** `memset` of everything behind the old contents. */
    static method ZeroTail(a: array<Byte>, from: nat)
      requires from <= a.Length
      modifies a
      ensures a[..from] == old(a[..from]) && a[from..] == Zeros(a.Length - from)
    {
      for i := from to a.Length
        invariant a[..from] == old(a[..from])
        invariant forall j | from <= j < i :: a[j] == 0
      {
        a[i] := 0;
      }
    }
  }

  // ---------------------------------------------------------------- one request

  /**
   A granted request leaves room for what was asked exactly when the size with the header does not wrap
   around; what was there stays, and what is new is zero.
   */
  lemma ReservedCovers(b: Block, needed: nat)
    requires b.Valid() && needed < SIZE_MOD
    ensures var r := Reserved(b, needed, true);
      && (needed <= r.Capacity() <==> needed + HEADER < SIZE_MOD)
      && b.Capacity() <= r.Capacity() && (r.Null? <==> b.Null? && needed + HEADER == SIZE_MOD)
      && (b.Block? ==> r.Block? && r.contents[..b.Capacity()] == b.contents)
      && forall i | b.Capacity() <= i < r.Capacity() :: r.contents[i] == 0
  {
    hide NextSize, NextPow2;
    var total := (needed + HEADER) % SIZE_MOD;
    if needed + HEADER < SIZE_MOD {
      assert total == needed + HEADER;
    } else {
      assert total == needed + HEADER - SIZE_MOD;
    }
  }

  /**
   When the system refuses, the buffer is lost exactly when it had to grow; a request that it has room for
   leaves it alone, whatever the system would answer.
   */
  lemma RefusedExactly(b: Block, needed: nat)
    requires b.Valid() && needed < SIZE_MOD
    ensures Reserved(b, needed, false) == if needed + HEADER < SIZE_MOD && b.Capacity() < needed then Null else b
    ensures b.Block? && needed <= b.Capacity() ==> Reserved(b, needed, true) == b
  {
    var total := (needed + HEADER) % SIZE_MOD;
    if needed + HEADER < SIZE_MOD {
      assert total == needed + HEADER;
    } else {
      assert total == needed + HEADER - SIZE_MOD;
    }
  }

  // ---------------------------------------------------------------- runs

  /** What a client does: ask for room, or write a byte. */
  datatype Op = Request(needed: nat) | Put(at: nat, value: Byte)

  /** Writes stay inside the buffer; requests stay, with the header, within 2^32. */
  predicate Allowed(b: Block, op: Op) {
    match op
    case Request(needed) => needed + HEADER <= 0x1_0000_0000
    case Put(at, _) => at < b.Capacity()
  }

  function Apply(b: Block, op: Op): (r: Block)
    requires b.Valid() && Allowed(b, op)
    ensures r.Valid()
  {
    match op
    case Request(needed) => Reserved(b, needed, true)
    case Put(at, value) => b.(contents := b.contents[at := value])
  }

  /** Every operation is allowed when its turn comes, starting from a null pointer. */
  ghost predicate Legal(ops: seq<Op>)
    decreases |ops|, 0
  {
    ops == [] || (Legal(ops[..|ops| - 1]) && Allowed(Run(ops[..|ops| - 1]), ops[|ops| - 1]))
  }

  ghost function Run(ops: seq<Op>): (b: Block)
    requires Legal(ops)
    ensures b.Valid()
    decreases |ops|, 1
  {
    if ops == [] then Null else Apply(Run(ops[..|ops| - 1]), ops[|ops| - 1])
  }

  /** How many bytes all growths together had to carry over. */
  ghost function Carried(ops: seq<Op>): nat
    requires Legal(ops)
  {
    if ops == [] then 0
    else
      var before, after := Run(ops[..|ops| - 1]), Run(ops);
      Carried(ops[..|ops| - 1]) + if after.Current() != before.Current() then before.Current() else 0
  }

  /** What an unbounded memory of zeros would hold at place `i`. */
  function LastPut(ops: seq<Op>, i: nat): Byte {
    if ops == [] then 0
    else
      var op := ops[|ops| - 1];
      if op.Put? && op.at == i then op.value else LastPut(ops[..|ops| - 1], i)
  }

  function MaxRequest(ops: seq<Op>): nat {
    if ops == [] then 0
    else
      var op, before := ops[|ops| - 1], MaxRequest(ops[..|ops| - 1]);
      if op.Request? && before < op.needed then op.needed else before
  }

  ghost predicate Pow2Sized(b: Block) {
    b.Block? ==> exists k: nat :: b.complete == Pow2(k)
  }

  lemma GrowsTwofold(b: Block, needed: nat)
    requires b.Valid() && needed + HEADER <= 0x1_0000_0000 && Pow2Sized(b)
    ensures var r := Reserved(b, needed, true);
      && r.Block? && Pow2Sized(r) && (r == b || 2 * b.Current() <= r.complete)
      && (r == b || r.complete == INITIAL_GROWTH_SIZE || r.complete < 2 * (needed + HEADER))
  {
    var total := needed + HEADER;
    assert total % SIZE_MOD == total;
    var r := Reserved(b, needed, true);
    if b.Current() < total {
      NextIsPow2(total);
      var k: nat :| NextSize(total) == Pow2(k);
      if b.Block? {
        var j: nat :| b.complete == Pow2(j);
        if j < k {
          Pow2Grows(j, k);
        } else if k < j {
          Pow2Grows(k, j);
        }
      }
    }
  }

  lemma NextIsPow2(total: nat)
    requires HEADER <= total <= 0x1_0000_0000
    ensures exists k: nat :: NextSize(total) == Pow2(k)
    ensures NextSize(total) == INITIAL_GROWTH_SIZE || NextSize(total) < 2 * total
  {
    hide NextPow2;
    if total < INITIAL_GROWTH_SIZE {
      assert Pow2(6) == 64;
    } else {
      NextPow2IsLeast(total);
      var k: nat :| NextPow2(total) == Pow2(k) && LeastAt(total, k);
      if k > 0 {
        assert Pow2(k - 1) < total;
      }
    }
  }

  /**
   Over a whole run the buffer behaves like an unbounded memory of zeros, restricted to a capacity that
   covers every request, is not wasteful, and was reached by carrying over fewer bytes than it ends up
   with.
   */
  lemma {:induction false} RunIsMemory(ops: seq<Op>)
    requires Legal(ops)
    ensures var b := Run(ops);
      && Pow2Sized(b) && MaxRequest(ops) <= b.Capacity()
      && (forall i | 0 <= i < b.Capacity() :: b.contents[i] == LastPut(ops, i))
      && (b.Block? ==> Carried(ops) < b.complete) && (b.Null? ==> Carried(ops) == 0)
      && (b.Block? ==> b.complete == INITIAL_GROWTH_SIZE || b.complete < 2 * (MaxRequest(ops) + HEADER))
    decreases |ops|
  {
    if ops != [] {
      var before, op := ops[..|ops| - 1], ops[|ops| - 1];
      hide NextSize, NextPow2, Reserved;
      RunIsMemory(before);
      var b, r := Run(before), Run(ops);
      match op
      case Request(needed) =>
        ReservedCovers(b, needed);
        GrowsTwofold(b, needed);
        assert r.Null? || forall i | b.Capacity() <= i < r.Capacity() :: LastPut(before, i) == 0 by {
          NothingPutBeyond(before, b.Capacity());
        }
        KeptPart(b, r, before);
      case Put(at, value) =>
    }
  }

  lemma KeptPart(b: Block, r: Block, before: seq<Op>)
    requires b.Valid() && r.Valid() && b.Capacity() <= r.Capacity()
    requires forall i | 0 <= i < b.Capacity() :: b.contents[i] == LastPut(before, i)
    requires b.Block? ==> r.Block? && r.contents[..b.Capacity()] == b.contents
    requires forall i | b.Capacity() <= i < r.Capacity() :: r.contents[i] == 0 == LastPut(before, i)
    ensures forall i | 0 <= i < r.Capacity() :: r.contents[i] == LastPut(before, i)
  {
    forall i | 0 <= i < b.Capacity()
      ensures r.contents[i] == LastPut(before, i)
    {
      assert r.contents[i] == r.contents[..b.Capacity()][i];
    }
  }

  lemma {:induction false} NothingPutBeyond(ops: seq<Op>, cap: nat)
    requires Legal(ops) && Run(ops).Capacity() <= cap
    ensures forall i: nat | cap <= i :: LastPut(ops, i) == 0
    decreases |ops|
  {
    if ops != [] {
      hide NextSize, NextPow2, Reserved;
      var before, op := ops[..|ops| - 1], ops[|ops| - 1];
      if op.Request? {
        ReservedCovers(Run(before), op.needed);
      }
      NothingPutBeyond(before, cap);
    }
  }
}
