/** Where the bytes come from that the block edits of `afl_mutate` put in, and what they leave in place. */
module HavocBlocks {
  import opened Arithmetic
  import opened Bytes
  import opened Wrappers
  import opened Rng
  import opened HavocPlan
  import opened HavocSteps
  import opened HavocLaws

  ghost predicate PieceFrom(block: seq<Byte>, s: seq<Byte>, from: nat) {
    from + |block| <= |s| && block == s[from..from + |block|]
  }

  ghost predicate PieceOf(block: seq<Byte>, s: seq<Byte>) {
    exists from: nat :: PieceFrom(block, s, from)
  }

  /** The words left once a filling kind has drawn the length and the place of its block. */
  function AfterPlace(env: Env, kind: Kind, s: seq<Byte>, tape: Tape): Option<Tape>
    requires 1 <= |s|
  {
    match kind
    case CloneFixed =>
      var (_, t1) :- ChooseBlockLen(env, HAVOC_BLK_XL, tape);
      var (_, t2) :- Below(t1, |s|);
      Some(t2)
    case OverwriteFixed =>
      var (count, t1) :- ChooseBlockLen(env, |s| - 1, tape);
      var (_, t2) :- Below(t1, |s| - count + 1);
      Some(t2)
    case InsertOne =>
      var (_, t1) :- Below(tape, |s|);
      Some(t1)
    case _ => None
  }

  /** All bytes are the one before the block when a coin falls on 0, and else one byte that is drawn next. */
  ghost predicate Filled(s: seq<Byte>, at: nat, rest: Option<Tape>, block: seq<Byte>) {
    && rest.Some? && at < |s|
    && var coin := Below(rest.value, 2);
    && coin.Some?
    && if coin.value.0 == 0 then block == Repeat(s[if at > 0 then at - 1 else 0], |block|)
       else var item := Below(coin.value.1, 256); item.Some? && block == Repeat(item.value.0, |block|)
  }

  /** What a kind may put in: bytes of the buffer itself, one value, a dictionary token, bytes of the splice buffer. */
  ghost predicate Source(env: Env, kind: Kind, s: seq<Byte>, tape: Tape, at: nat, block: seq<Byte>)
    requires 1 <= |s|
  {
    match kind
    case CloneCopy => 1 <= |block| && PieceOf(block, s)
    case OverwriteCopy => 1 <= |block| && PieceOf(block, s)
    case CloneFixed => 1 <= |block| && Filled(s, at, AfterPlace(env, kind, s, tape), block)
    case OverwriteFixed => 1 <= |block| && Filled(s, at, AfterPlace(env, kind, s, tape), block)
    case InsertOne => |block| == 1 && Filled(s, at, AfterPlace(env, kind, s, tape), block)
    case ExtraInsert => block in env.extras
    case ExtraOverwrite => block in env.extras
    case AutoExtraInsert => block in env.autoExtras
    case AutoExtraOverwrite => block in env.autoExtras
    case SpliceInsert => 1 <= |block| && PieceOf(block, env.splice)
    case SpliceOverwrite => 1 <= |block| && PieceOf(block, env.splice)
    case _ => false
  }

  predicate Inserts(kind: Kind) {
    (kind.CloneCopy? || kind.CloneFixed? || kind.InsertOne? || kind.ExtraInsert?
      || kind.AutoExtraInsert? || kind.SpliceInsert?)
  }

  predicate Overwrites(kind: Kind) {
    (kind.OverwriteCopy? || kind.OverwriteFixed? || kind.ExtraOverwrite? || kind.AutoExtraOverwrite?
      || kind.SpliceOverwrite?)
  }

  lemma PieceAt(s: seq<Byte>, from: nat, n: nat)
    requires from + n <= |s|
    ensures PieceOf(s[from..from + n], s) && |s[from..from + n]| == n
  {
    assert PieceFrom(s[from..from + n], s, from);
  }

  /** The block that an operation puts in, and where. */
  function BlockIn(env: Env, s: seq<Byte>, op: Op): (r: (nat, seq<Byte>))
    requires OpOk(env, |s|, op)
  {
    match op
    case CloneBlock(from, to, count) => (to, s[from..from + count])
    case CloneByte(to, item, count) => (to, Repeat(item, count))
    case MoveBlock(from, to, count) => (to, s[from..from + count])
    case FillBlock(to, item, count) => (to, Repeat(item, count))
    case Store(at, data) => (at, data)
    case PushIn(at, data) => (at, data)
    case SpliceIn(from, to, count) => (to, env.splice[from..from + count])
    case _ => (0, [])
  }

  /** A block of the byte that was chosen for it. */
  lemma FillSource(s: seq<Byte>, to: nat, rest: Tape, count: nat)
    requires to < |s| && FillByte(s, to, rest).Some?
    ensures Filled(s, to, Some(rest), Repeat(FillByte(s, to, rest).value.0, count))
  {
    hide Below;
  }

  lemma CloneFixedSource(env: Env, s: seq<Byte>, tape: Tape, op: Op)
    requires 1 <= |s| && op.CloneByte?
    requires PlanCloneFixed(env, s, tape).Some? && PlanCloneFixed(env, s, tape).value.0 == Go(op)
    ensures Source(env, CloneFixed, s, tape, op.to, Repeat(op.item, op.count))
  {
    hide Below, ChooseBlockLen, FillByte, Filled, Repeat;
    FillSource(s, op.to, AfterPlace(env, CloneFixed, s, tape).value, op.count);
  }

  lemma InsertOneSource(env: Env, s: seq<Byte>, tape: Tape, op: Op)
    requires 1 <= |s| && op.CloneByte?
    requires PlanInsertOne(env, s, tape).Some? && PlanInsertOne(env, s, tape).value.0 == Go(op)
    ensures Source(env, InsertOne, s, tape, op.to, Repeat(op.item, op.count))
  {
    hide Below, FillByte, Filled, Repeat;
    FillSource(s, op.to, AfterPlace(env, InsertOne, s, tape).value, op.count);
  }

  /** Only the two filling kinds repeat a byte. */
  lemma RepeatKinds(env: Env, kind: Kind, s: seq<Byte>, tape: Tape, op: Op)
    requires Inserts(kind) && 1 <= |s| && op.CloneByte?
    requires Plan(env, kind, s, tape).Some? && Plan(env, kind, s, tape).value.0 == Go(op)
    ensures Source(env, kind, s, tape, op.to, Repeat(op.item, op.count))
  {
    hide Below, ChooseBlockLen, FillByte, PieceOf, Source, PlanCloneFixed, PlanInsertOne;
    match kind
    case CloneFixed => CloneFixedSource(env, s, tape, op);
    case InsertOne => InsertOneSource(env, s, tape, op);
    case _ =>
  }

  lemma InsertSource(env: Env, kind: Kind, s: seq<Byte>, tape: Tape, op: Op)
    requires Inserts(kind) && 1 <= |s| && OpOk(env, |s|, op)
    requires Plan(env, kind, s, tape).Some? && Plan(env, kind, s, tape).value.0 == Go(op) && op != Nothing
    ensures op.CloneBlock? || op.CloneByte? || op.PushIn? || op.SpliceIn?
    ensures Source(env, kind, s, tape, BlockIn(env, s, op).0, BlockIn(env, s, op).1)
  {
    hide Below, ChooseBlockLen, FillByte, PieceOf, Filled, Repeat;
    if op.CloneByte? {
      RepeatKinds(env, kind, s, tape, op);
    } else {
      match kind
      case CloneCopy => PieceAt(s, op.from, op.count);
      case SpliceInsert => PieceAt(env.splice, op.from, op.count);
      case _ =>
    }
  }

  lemma OverwriteSource(env: Env, kind: Kind, s: seq<Byte>, tape: Tape, op: Op)
    requires Overwrites(kind) && 1 <= |s| && OpOk(env, |s|, op)
    requires Plan(env, kind, s, tape).Some? && Plan(env, kind, s, tape).value.0 == Go(op) && op != Nothing
    ensures op.MoveBlock? || op.FillBlock? || op.Store?
    ensures Source(env, kind, s, tape, BlockIn(env, s, op).0, BlockIn(env, s, op).1)
  {
    hide Below, ChooseBlockLen, FillByte, PieceOf, Filled, Repeat;
    match kind
    case OverwriteCopy => PieceAt(s, op.from, op.count);
    case OverwriteFixed => FillSource(s, op.to, AfterPlace(env, kind, s, tape).value, op.count);
    case SpliceOverwrite => SplicePiece(env, s, tape);
    case _ =>
  }

  lemma SplicePiece(env: Env, s: seq<Byte>, tape: Tape)
    requires 1 <= |s| && PlanSpliceOverwrite(env, s, tape).Some? && PlanSpliceOverwrite(env, s, tape).value.0.Go?
    ensures var op := PlanSpliceOverwrite(env, s, tape).value.0.op;
      op.Store? && PieceOf(op.data, env.splice) && 1 <= |op.data|
  {
    hide Below, ChooseBlockLen, PieceOf;
    var (length, t1) := ChooseBlockLen(env, |env.splice| - 1, tape).value;
    var count := Min(length, |s|);
    var (from, t2) := Below(t1, |env.splice| - count + 1).value;
    PieceAt(env.splice, from, count);
  }

  lemma InsertDone(env: Env, s: seq<Byte>, op: Op)
    requires op.CloneBlock? || op.CloneByte? || op.PushIn? || op.SpliceIn?
    requires 1 <= |s| <= env.maxLen && OpOk(env, |s|, op)
    ensures var (at, block) := BlockIn(env, s, op);
      at <= |s| && After(env, s, op) == s[..at] + block + s[at..]
  {
  }

  lemma OverwriteDone(env: Env, s: seq<Byte>, op: Op)
    requires op.MoveBlock? || op.FillBlock? || op.Store?
    requires 1 <= |s| <= env.maxLen && OpOk(env, |s|, op)
    ensures var (at, block) := BlockIn(env, s, op);
      at + |block| <= |s| && After(env, s, op) == s[..at] + block + s[at + |block|..]
  {
  }

  lemma TakeOut(a: seq<Byte>, b: seq<Byte>, c: seq<Byte>)
    ensures var t := a + b + c; t[..|a|] == a && t[|a|..|a| + |b|] == b && t[|a| + |b|..] == c
  {
  }

  /** An insertion puts in a block of the kind's source, and taking it out again gives the old buffer. */
  lemma InsertionsKeep(env: Env, kind: Kind, s: seq<Byte>, tape: Tape, t: seq<Byte>) returns (at: nat, block: seq<Byte>)
    requires Inserts(kind) && 1 <= |s| && Leads(env, s, Plan(env, kind, s, tape), t)
    requires !LeavesAlone(Plan(env, kind, s, tape))
    ensures at <= |s| && |t| == |s| + |block| && t[at..at + |block|] == block && Source(env, kind, s, tape, at, block)
    ensures t[..at] + t[at + |block|..] == s
  {
    hide Plan, After, Source, BlockIn, OpOk;
    var op := Plan(env, kind, s, tape).value.0.op;
    InsertSource(env, kind, s, tape, op);
    InsertDone(env, s, op);
    at, block := BlockIn(env, s, op).0, BlockIn(env, s, op).1;
    TakeOut(s[..at], block, s[at..]);
    assert s[..at] + s[at..] == s;
  }

  /** An overwrite puts a block of the kind's source over old bytes; everything else stays. */
  lemma OverwritesInside(env: Env, kind: Kind, s: seq<Byte>, tape: Tape, t: seq<Byte>) returns (at: nat,
      block: seq<Byte>)
    requires Overwrites(kind) && 1 <= |s| && Leads(env, s, Plan(env, kind, s, tape), t)
    requires !LeavesAlone(Plan(env, kind, s, tape))
    ensures at + |block| <= |s| == |t| && t[at..at + |block|] == block && Source(env, kind, s, tape, at, block)
    ensures t[..at] == s[..at] && t[at + |block|..] == s[at + |block|..]
  {
    hide Plan, After, Source, BlockIn, OpOk;
    var op := Plan(env, kind, s, tape).value.0.op;
    OverwriteSource(env, kind, s, tape, op);
    OverwriteDone(env, s, op);
    at, block := BlockIn(env, s, op).0, BlockIn(env, s, op).1;
    TakeOut(s[..at], block, s[at + |block|..]);
  }

  /** A deletion takes out one block, of one byte for MUT_DELONE, and never all. */
  lemma DeletionsKeep(env: Env, kind: Kind, s: seq<Byte>, tape: Tape, t: seq<Byte>) returns (at: nat, count: nat)
    requires (kind == Del || kind == DelOne) && 2 <= |s| && Leads(env, s, Plan(env, kind, s, tape), t)
    ensures 1 <= count < |s| && at + count <= |s| && (kind == DelOne ==> count == 1)
    ensures t == s[..at] + s[at + count..]
  {
    hide Below, ChooseBlockLen;
    var op := Plan(env, kind, s, tape).value.0.op;
    at, count := op.from, op.count;
  }
}
