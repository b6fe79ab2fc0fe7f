/** What the kinds of edits that work on blocks can make of a buffer, exactly. */
module HavocBlockKinds {
  import opened Arithmetic
  import opened Bytes
  import opened Wrappers
  import opened Rng
  import opened HavocWords
  import opened HavocPlan
  import opened HavocSteps
  import opened HavocLaws
  import opened HavocBlocks
  import opened HavocDraws
  import opened HavocKinds

  /** `block` was put in at `at`. */
  ghost predicate Inserted(s: seq<Byte>, t: seq<Byte>, at: nat, block: seq<Byte>) {
    at <= |s| && t == s[..at] + block + s[at..]
  }

  /** `block` was written over what stood at `at`. */
  ghost predicate Overwritten(s: seq<Byte>, t: seq<Byte>, at: nat, block: seq<Byte>) {
    at + |block| <= |s| && t == s[..at] + block + s[at + |block|..]
  }

  lemma InsertLeads(env: Env, s: seq<Byte>, t: seq<Byte>, op: Op, rest: Tape)
    requires op.CloneBlock? || op.CloneByte? || op.PushIn? || op.SpliceIn?
    requires 1 <= |s| <= env.maxLen && OpOk(env, |s|, op)
    requires Inserted(s, t, BlockIn(env, s, op).0, BlockIn(env, s, op).1)
    ensures Leads(env, s, Some((Go(op), rest)), t)
  {
    hide After, BlockIn, OpOk;
    InsertDone(env, s, op);
  }

  lemma OverwriteLeads(env: Env, s: seq<Byte>, t: seq<Byte>, op: Op, rest: Tape)
    requires op.MoveBlock? || op.FillBlock? || op.Store?
    requires 1 <= |s| <= env.maxLen && OpOk(env, |s|, op)
    requires Overwritten(s, t, BlockIn(env, s, op).0, BlockIn(env, s, op).1)
    ensures Leads(env, s, Some((Go(op), rest)), t)
  {
    hide After, BlockIn, OpOk;
    OverwriteDone(env, s, op);
  }

  lemma LeadsInsert(env: Env, s: seq<Byte>, d: Decision, t: seq<Byte>)
    requires Leads(env, s, d, t)
    requires var op := d.value.0.op; op.CloneBlock? || op.CloneByte? || op.PushIn? || op.SpliceIn?
    ensures var (at, block) := BlockIn(env, s, d.value.0.op); Inserted(s, t, at, block)
  {
    hide After, BlockIn, OpOk;
    InsertDone(env, s, d.value.0.op);
  }

  lemma LeadsOverwrite(env: Env, s: seq<Byte>, d: Decision, t: seq<Byte>)
    requires Leads(env, s, d, t)
    requires var op := d.value.0.op; op.MoveBlock? || op.FillBlock? || op.Store?
    ensures var (at, block) := BlockIn(env, s, d.value.0.op); Overwritten(s, t, at, block)
  {
    hide After, BlockIn, OpOk;
    OverwriteDone(env, s, d.value.0.op);
  }

  // ---------------------------------------------------------------- a copy of a block

  ghost predicate Cloned(env: Env, s: seq<Byte>, t: seq<Byte>, n: nat, from: nat, to: nat) {
    LengthPossible(env, |s|, n) && from + n <= |s| && to < |s| && Inserted(s, t, to, s[from..from + n])
  }

  /** A copy of a block goes in before any byte, when the largest block has room. */
  ghost predicate CloneCopyLaw(env: Env, s: seq<Byte>, t: seq<Byte>) {
    if |s| + HAVOC_BLK_XL < env.maxLen then exists n: nat, from: nat, to: nat :: Cloned(env, s, t, n, from, to)
    else |s| < 8 && t == s
  }

  lemma CloneCopyObeys(env: Env, s: seq<Byte>, tape: Tape, t: seq<Byte>)
    requires env.Valid() && 1 <= |s| && Leads(env, s, Plan(env, CloneCopy, s, tape), t)
    ensures CloneCopyLaw(env, s, t)
  {
    hide Below, ChooseBlockLen, LengthPossible, After;
    var d := PlanCloneCopy(env, s, tape);
    if |s| + HAVOC_BLK_XL < env.maxLen {
      LengthIsPossible(env, |s|, tape);
      var op := d.value.0.op;
      LeadsInsert(env, s, d, t);
      assert Cloned(env, s, t, op.count, op.from, op.to);
    } else {
      LeadsNothing(env, s, d, t);
    }
  }

  lemma CloneCopyTape(env: Env, s: seq<Byte>, n: nat, from: nat, to: nat, rest: Tape) returns (tape: Tape)
    requires env.Valid() && 1 <= |s| && |s| + HAVOC_BLK_XL < env.maxLen
    requires LengthPossible(env, |s|, n) && 1 <= n && from + n <= |s| && to < |s|
    ensures PlanCloneCopy(env, s, tape) == Some((Go(CloneBlock(from, to, n)), rest))
  {
    hide Below, ChooseBlockLen, LengthPossible;
    var last := Words(|s|, to) + rest;
    DrawAny(|s|, to, rest);
    DrawAny(|s| - n + 1, from, last);
    tape := LengthTape(env, |s|, n, Words(|s| - n + 1, from) + last);
  }

  lemma CloneCopyReached(env: Env, s: seq<Byte>, t: seq<Byte>, rest: Tape) returns (tape: Tape)
    requires env.Valid() && 1 <= |s| <= env.maxLen && CloneCopyLaw(env, s, t)
    ensures Reaches(env, CloneCopy, s, tape, t, rest)
  {
    hide Below, ChooseBlockLen, LengthPossible, After, Leads;
    if |s| + HAVOC_BLK_XL < env.maxLen {
      var n: nat, from: nat, to: nat :| Cloned(env, s, t, n, from, to);
      LengthPositive(env, |s|, n);
      tape := CloneCopyTape(env, s, n, from, to, rest);
      InsertLeads(env, s, t, CloneBlock(from, to, n), rest);
    } else {
      tape := rest;
      NothingLeads(env, s, rest);
    }
  }

  ghost predicate CopiedOver(env: Env, s: seq<Byte>, t: seq<Byte>, n: nat, from: nat, to: nat) {
    && 2 <= |s| && LengthPossible(env, |s| - 1, n) && from + n <= |s|
    && Overwritten(s, t, to, s[from..from + n])
  }

  /** A block is written over any place. */
  ghost predicate OverwriteCopyLaw(env: Env, s: seq<Byte>, t: seq<Byte>) {
    if |s| < 2 then t == s else exists n: nat, from: nat, to: nat :: CopiedOver(env, s, t, n, from, to)
  }

  lemma OverSelf(s: seq<Byte>, from: nat, n: nat)
    requires from + n <= |s|
    ensures s[..from] + s[from..from + n] + s[from + n..] == s
  {
  }

  lemma OverwriteCopyObeys(env: Env, s: seq<Byte>, tape: Tape, t: seq<Byte>)
    requires env.Valid() && 1 <= |s| && Leads(env, s, Plan(env, OverwriteCopy, s, tape), t)
    ensures OverwriteCopyLaw(env, s, t)
  {
    hide Below, ChooseBlockLen, LengthPossible, After;
    var d := PlanOverwriteCopy(env, s, tape);
    if |s| < 2 {
      LeadsNothing(env, s, d, t);
    } else {
      LengthIsPossible(env, |s| - 1, tape);
      var (n, t1) := ChooseBlockLen(env, |s| - 1, tape).value;
      var (from, t2) := Below(t1, |s| - n + 1).value;
      var (to, _) := Below(t2, |s| - n + 1).value;
      if from == to {
        LeadsNothing(env, s, d, t);
        OverSelf(s, from, n);
      } else {
        LeadsOverwrite(env, s, d, t);
      }
      assert CopiedOver(env, s, t, n, from, to);
    }
  }

  lemma OverwriteCopyTape(env: Env, s: seq<Byte>, n: nat, from: nat, to: nat, rest: Tape) returns (tape: Tape)
    requires env.Valid() && 2 <= |s| <= env.maxLen
    requires LengthPossible(env, |s| - 1, n) && 1 <= n && from + n <= |s| && to + n <= |s|
    ensures PlanOverwriteCopy(env, s, tape)
      == Some((Go(if from != to then MoveBlock(from, to, n) else Nothing), rest))
  {
    hide Below, ChooseBlockLen, LengthPossible;
    var last := Words(|s| - n + 1, to) + rest;
    DrawAny(|s| - n + 1, to, rest);
    DrawAny(|s| - n + 1, from, last);
    tape := LengthTape(env, |s| - 1, n, Words(|s| - n + 1, from) + last);
  }

  lemma OverwriteCopyReached(env: Env, s: seq<Byte>, t: seq<Byte>, rest: Tape) returns (tape: Tape)
    requires env.Valid() && 1 <= |s| <= env.maxLen && OverwriteCopyLaw(env, s, t)
    ensures Reaches(env, OverwriteCopy, s, tape, t, rest)
  {
    hide Below, ChooseBlockLen, LengthPossible, After, Leads;
    if |s| < 2 {
      tape := rest;
      NothingLeads(env, s, rest);
    } else {
      var n: nat, from: nat, to: nat :| CopiedOver(env, s, t, n, from, to);
      LengthPositive(env, |s| - 1, n);
      tape := OverwriteCopyTape(env, s, n, from, to, rest);
      if from == to {
        OverSelf(s, from, n);
        NothingLeads(env, s, rest);
      } else {
        OverwriteLeads(env, s, t, MoveBlock(from, to, n), rest);
      }
    }
  }

  lemma LengthPositive(env: Env, limit: nat, n: nat)
    requires LengthPossible(env, limit, n)
    ensures 1 <= n <= HAVOC_BLK_XL && (1 <= limit ==> n <= limit)
  {
  }

  // ---------------------------------------------------------------- a block of one byte

  ghost predicate FilledIn(env: Env, s: seq<Byte>, t: seq<Byte>, n: nat, to: nat, item: Byte) {
    LengthPossible(env, HAVOC_BLK_XL, n) && to < |s| && Inserted(s, t, to, Repeat(item, n))
  }

  /** Any byte over and over goes in before any byte, when the largest block has room. */
  ghost predicate CloneFixedLaw(env: Env, s: seq<Byte>, t: seq<Byte>) {
    if |s| + HAVOC_BLK_XL < env.maxLen then exists n: nat, to: nat, item: Byte :: FilledIn(env, s, t, n, to, item)
    else |s| < 8 && t == s
  }

  lemma CloneFixedObeys(env: Env, s: seq<Byte>, tape: Tape, t: seq<Byte>)
    requires env.Valid() && 1 <= |s| && Leads(env, s, Plan(env, CloneFixed, s, tape), t)
    ensures CloneFixedLaw(env, s, t)
  {
    hide Below, ChooseBlockLen, LengthPossible, After, FillByte, Repeat;
    var d := PlanCloneFixed(env, s, tape);
    if |s| + HAVOC_BLK_XL < env.maxLen {
      LengthIsPossible(env, HAVOC_BLK_XL, tape);
      var op := d.value.0.op;
      LeadsInsert(env, s, d, t);
      assert FilledIn(env, s, t, op.count, op.to, op.item);
    } else {
      LeadsNothing(env, s, d, t);
    }
  }

  /** Words for a fill byte: the coin on 1, then the byte. */
  lemma FillTape(s: seq<Byte>, to: nat, item: Byte, rest: Tape)
    requires to < |s|
    ensures FillByte(s, to, Words(2, 1) + (Words(256, item) + rest)) == Some((item, rest))
  {
    hide Below;
    DrawAny(2, 1, Words(256, item) + rest);
    DrawAny(256, item, rest);
  }

  lemma CloneFixedReached(env: Env, s: seq<Byte>, t: seq<Byte>, rest: Tape) returns (tape: Tape)
    requires env.Valid() && 1 <= |s| <= env.maxLen && CloneFixedLaw(env, s, t)
    ensures Reaches(env, CloneFixed, s, tape, t, rest)
  {
    hide Below, ChooseBlockLen, LengthPossible, After, FillByte, Repeat;
    if |s| + HAVOC_BLK_XL < env.maxLen {
      var n: nat, to: nat, item: Byte :| FilledIn(env, s, t, n, to, item);
      LengthPositive(env, HAVOC_BLK_XL, n);
      var last := Words(2, 1) + (Words(256, item) + rest);
      FillTape(s, to, item, rest);
      DrawAny(|s|, to, last);
      tape := LengthTape(env, HAVOC_BLK_XL, n, Words(|s|, to) + last);
      InsertLeads(env, s, t, CloneByte(to, item, n), rest);
    } else {
      tape := rest;
      NothingLeads(env, s, rest);
    }
  }

  ghost predicate FilledOver(env: Env, s: seq<Byte>, t: seq<Byte>, n: nat, to: nat, item: Byte) {
    2 <= |s| && LengthPossible(env, |s| - 1, n) && Overwritten(s, t, to, Repeat(item, n))
  }

  ghost predicate OverwriteFixedLaw(env: Env, s: seq<Byte>, t: seq<Byte>) {
    if |s| < 2 then t == s else exists n: nat, to: nat, item: Byte :: FilledOver(env, s, t, n, to, item)
  }

  lemma OverwriteFixedObeys(env: Env, s: seq<Byte>, tape: Tape, t: seq<Byte>)
    requires env.Valid() && 1 <= |s| && Leads(env, s, Plan(env, OverwriteFixed, s, tape), t)
    ensures OverwriteFixedLaw(env, s, t)
  {
    hide Below, ChooseBlockLen, LengthPossible, After, FillByte, Repeat;
    var d := PlanOverwriteFixed(env, s, tape);
    if |s| < 2 {
      LeadsNothing(env, s, d, t);
    } else {
      LengthIsPossible(env, |s| - 1, tape);
      var op := d.value.0.op;
      LeadsOverwrite(env, s, d, t);
      assert FilledOver(env, s, t, op.count, op.to, op.item);
    }
  }

  lemma OverwriteFixedReached(env: Env, s: seq<Byte>, t: seq<Byte>, rest: Tape) returns (tape: Tape)
    requires env.Valid() && 1 <= |s| <= env.maxLen && OverwriteFixedLaw(env, s, t)
    ensures Reaches(env, OverwriteFixed, s, tape, t, rest)
  {
    hide Below, ChooseBlockLen, LengthPossible, After, FillByte, Repeat;
    if |s| < 2 {
      tape := rest;
      NothingLeads(env, s, rest);
    } else {
      var n: nat, to: nat, item: Byte :| FilledOver(env, s, t, n, to, item);
      LengthPositive(env, |s| - 1, n);
      var last := Words(2, 1) + (Words(256, item) + rest);
      FillTape(s, to, item, rest);
      DrawAny(|s| - n + 1, to, last);
      tape := LengthTape(env, |s| - 1, n, Words(|s| - n + 1, to) + last);
      OverwriteLeads(env, s, t, FillBlock(to, item, n), rest);
    }
  }

  ghost predicate OneIn(s: seq<Byte>, t: seq<Byte>, to: nat, item: Byte) {
    to < |s| && Inserted(s, t, to, [item])
  }

  /** One byte more before any byte, when there is room for it. */
  ghost predicate InsertOneLaw(env: Env, s: seq<Byte>, t: seq<Byte>) {
    if |s| < 2 then t == s
    else |s| + 1 <= env.maxLen && exists to: nat, item: Byte :: OneIn(s, t, to, item)
  }

  lemma RepeatOnce(item: Byte)
    ensures Repeat(item, 1) == [item]
  {
  }

  lemma InsertOneObeys(env: Env, s: seq<Byte>, tape: Tape, t: seq<Byte>)
    requires env.Valid() && 1 <= |s| && Leads(env, s, Plan(env, InsertOne, s, tape), t)
    ensures InsertOneLaw(env, s, t)
  {
    hide Below, After, FillByte, Repeat;
    var d := PlanInsertOne(env, s, tape);
    if |s| < 2 {
      LeadsNothing(env, s, d, t);
    } else {
      var op := d.value.0.op;
      LeadsInsert(env, s, d, t);
      RepeatOnce(op.item);
      assert OneIn(s, t, op.to, op.item);
    }
  }

  lemma InsertOneReached(env: Env, s: seq<Byte>, t: seq<Byte>, rest: Tape) returns (tape: Tape)
    requires env.Valid() && 1 <= |s| <= env.maxLen && InsertOneLaw(env, s, t)
    ensures Reaches(env, InsertOne, s, tape, t, rest)
  {
    hide Below, After, FillByte, Repeat;
    if |s| < 2 {
      tape := rest;
      NothingLeads(env, s, rest);
    } else {
      var to: nat, item: Byte :| OneIn(s, t, to, item);
      var last := Words(2, 1) + (Words(256, item) + rest);
      FillTape(s, to, item, rest);
      DrawAny(|s|, to, last);
      tape := Words(|s|, to) + last;
      RepeatOnce(item);
      InsertLeads(env, s, t, CloneByte(to, item, 1), rest);
    }
  }

  // ---------------------------------------------------------------- deletions

  ghost predicate CutOut(s: seq<Byte>, t: seq<Byte>, from: nat, n: nat) {
    from + n <= |s| && t == s[..from] + s[from + n..]
  }

  ghost predicate Deleted(env: Env, s: seq<Byte>, t: seq<Byte>, from: nat, n: nat) {
    2 <= |s| && LengthPossible(env, |s| - 1, n) && CutOut(s, t, from, n)
  }

  ghost predicate DelLaw(env: Env, s: seq<Byte>, t: seq<Byte>) {
    if |s| < 2 then t == s else exists from: nat, n: nat :: Deleted(env, s, t, from, n)
  }

  lemma CutLeads(env: Env, s: seq<Byte>, t: seq<Byte>, from: nat, n: nat, rest: Tape)
    requires 1 <= |s| <= env.maxLen && n < |s| && CutOut(s, t, from, n)
    ensures Leads(env, s, Some((Go(Cut(from, n)), rest)), t)
  {
  }

  lemma LeadsCut(env: Env, s: seq<Byte>, d: Decision, t: seq<Byte>)
    requires Leads(env, s, d, t) && d.value.0.op.Cut?
    ensures CutOut(s, t, d.value.0.op.from, d.value.0.op.count)
  {
  }

  lemma DelObeys(env: Env, s: seq<Byte>, tape: Tape, t: seq<Byte>)
    requires env.Valid() && 1 <= |s| && Leads(env, s, Plan(env, Del, s, tape), t)
    ensures DelLaw(env, s, t)
  {
    hide Below, ChooseBlockLen, LengthPossible, After;
    var d := PlanDel(env, s, tape);
    if |s| < 2 {
      LeadsNothing(env, s, d, t);
    } else {
      LengthIsPossible(env, |s| - 1, tape);
      LeadsCut(env, s, d, t);
      assert Deleted(env, s, t, d.value.0.op.from, d.value.0.op.count);
    }
  }

  lemma DelReached(env: Env, s: seq<Byte>, t: seq<Byte>, rest: Tape) returns (tape: Tape)
    requires env.Valid() && 1 <= |s| <= env.maxLen && DelLaw(env, s, t)
    ensures Reaches(env, Del, s, tape, t, rest)
  {
    hide Below, ChooseBlockLen, LengthPossible, After;
    if |s| < 2 {
      tape := rest;
      NothingLeads(env, s, rest);
    } else {
      var from: nat, n: nat :| Deleted(env, s, t, from, n);
      LengthPositive(env, |s| - 1, n);
      DrawAny(|s| - n + 1, from, rest);
      tape := LengthTape(env, |s| - 1, n, Words(|s| - n + 1, from) + rest);
      CutLeads(env, s, t, from, n, rest);
    }
  }

  ghost predicate DelOneLaw(s: seq<Byte>, t: seq<Byte>) {
    if |s| < 2 then t == s else exists from: nat :: CutOut(s, t, from, 1)
  }

  lemma DelOneObeys(env: Env, s: seq<Byte>, tape: Tape, t: seq<Byte>)
    requires env.Valid() && 1 <= |s| && Leads(env, s, Plan(env, DelOne, s, tape), t)
    ensures DelOneLaw(s, t)
  {
    hide Below, After;
    var d := PlanDelOne(env, s, tape);
    if |s| < 2 {
      LeadsNothing(env, s, d, t);
    } else {
      LeadsCut(env, s, d, t);
    }
  }

  lemma DelOneReached(env: Env, s: seq<Byte>, t: seq<Byte>, rest: Tape) returns (tape: Tape)
    requires env.Valid() && 1 <= |s| <= env.maxLen && DelOneLaw(s, t)
    ensures Reaches(env, DelOne, s, tape, t, rest)
  {
    hide Below, After;
    if |s| < 2 {
      tape := rest;
      NothingLeads(env, s, rest);
    } else {
      var from: nat :| CutOut(s, t, from, 1);
      DrawAny(|s|, from, rest);
      tape := Words(|s|, from) + rest;
      CutLeads(env, s, t, from, 1, rest);
    }
  }

  // ---------------------------------------------------------------- tokens

  ghost predicate TokenOver(tokens: seq<seq<Byte>>, s: seq<Byte>, t: seq<Byte>, i: nat, at: nat) {
    i < |tokens| && Overwritten(s, t, at, tokens[i])
  }

  /** Any token over any place that holds it. */
  ghost predicate TokenOverLaw(tokens: seq<seq<Byte>>, s: seq<Byte>, t: seq<Byte>) {
    exists i: nat, at: nat :: TokenOver(tokens, s, t, i, at)
  }

  lemma TokenOverObeys(env: Env, tokens: seq<seq<Byte>>, s: seq<Byte>, tape: Tape, t: seq<Byte>)
    requires 1 <= |s| && Leads(env, s, PlanExtraOverwrite(env, tokens, s, tape), t)
    ensures TokenOverLaw(tokens, s, t)
  {
    hide Below, After;
    var d := PlanExtraOverwrite(env, tokens, s, tape);
    var (i, _) := Below(tape, |tokens|).value;
    LeadsOverwrite(env, s, d, t);
    assert TokenOver(tokens, s, t, i, d.value.0.op.at);
  }

  lemma TokenOverReached(env: Env, tokens: seq<seq<Byte>>, s: seq<Byte>, t: seq<Byte>, rest: Tape) returns (tape: Tape)
    requires env.Valid() && 1 <= |s| <= env.maxLen && |tokens| < WORD32 && TokenOverLaw(tokens, s, t)
    ensures var d := PlanExtraOverwrite(env, tokens, s, tape); Leads(env, s, d, t) && d.value.1 == rest
  {
    hide Below, After;
    var i: nat, at: nat :| TokenOver(tokens, s, t, i, at);
    var n := |s| - |tokens[i]| + 1;
    DrawAny(n, at, rest);
    DrawAny(|tokens|, i, Words(n, at) + rest);
    tape := Words(|tokens|, i) + (Words(n, at) + rest);
    OverwriteLeads(env, s, t, Store(at, tokens[i]), rest);
  }

  ghost predicate TokenIn(tokens: seq<seq<Byte>>, maxLen: nat, s: seq<Byte>, t: seq<Byte>, i: nat, at: nat) {
    i < |tokens| && |s| + |tokens[i]| <= maxLen && Inserted(s, t, at, tokens[i])
  }

  /** Any token at any place, also behind the last byte, when there is room for it. */
  ghost predicate TokenInLaw(tokens: seq<seq<Byte>>, maxLen: nat, s: seq<Byte>, t: seq<Byte>) {
    exists i: nat, at: nat :: TokenIn(tokens, maxLen, s, t, i, at)
  }

  ghost predicate ShortTokens(tokens: seq<seq<Byte>>) {
    |tokens| < WORD32 && forall i | 0 <= i < |tokens| :: |tokens[i]| <= MAX_DICT_FILE
  }

  lemma TokenInObeys(env: Env, tokens: seq<seq<Byte>>, s: seq<Byte>, tape: Tape, t: seq<Byte>)
    requires env.Valid() && ShortTokens(tokens)
    requires 1 <= |s| && Leads(env, s, PlanExtraInsert(env, tokens, s, tape), t)
    ensures TokenInLaw(tokens, env.maxLen, s, t)
  {
    hide Below, After;
    var d := PlanExtraInsert(env, tokens, s, tape);
    var (i, _) := Below(tape, |tokens|).value;
    LeadsInsert(env, s, d, t);
    assert TokenIn(tokens, env.maxLen, s, t, i, d.value.0.op.at);
  }

  lemma TokenInReached(env: Env, tokens: seq<seq<Byte>>, s: seq<Byte>, t: seq<Byte>, rest: Tape) returns (tape: Tape)
    requires env.Valid() && 1 <= |s| <= env.maxLen && ShortTokens(tokens) && TokenInLaw(tokens, env.maxLen, s, t)
    ensures var d := PlanExtraInsert(env, tokens, s, tape); Leads(env, s, d, t) && d.value.1 == rest
  {
    hide Below, After;
    var i: nat, at: nat :| TokenIn(tokens, env.maxLen, s, t, i, at);
    DrawAny(|s| + 1, at, rest);
    DrawAny(|tokens|, i, Words(|s| + 1, at) + rest);
    tape := Words(|tokens|, i) + (Words(|s| + 1, at) + rest);
    InsertLeads(env, s, t, PushIn(at, tokens[i]), rest);
  }

  // ---------------------------------------------------------------- the splice buffer

  ghost predicate SplicedOver(env: Env, s: seq<Byte>, t: seq<Byte>, l: nat, from: nat, to: nat) {
    && env.splice != [] && LengthPossible(env, |env.splice| - 1, l)
    && var n := Min(l, |s|);
    from + n <= |env.splice| && Overwritten(s, t, to, env.splice[from..from + n])
  }

  ghost predicate SpliceOverLaw(env: Env, s: seq<Byte>, t: seq<Byte>) {
    exists l: nat, from: nat, to: nat :: SplicedOver(env, s, t, l, from, to)
  }

  lemma SpliceOverObeys(env: Env, s: seq<Byte>, tape: Tape, t: seq<Byte>)
    requires env.Valid() && 1 <= |s| && Leads(env, s, Plan(env, SpliceOverwrite, s, tape), t)
    ensures SpliceOverLaw(env, s, t)
  {
    hide Below, ChooseBlockLen, LengthPossible, After;
    var d := PlanSpliceOverwrite(env, s, tape);
    LengthIsPossible(env, |env.splice| - 1, tape);
    var (l, t1) := ChooseBlockLen(env, |env.splice| - 1, tape).value;
    var n := Min(l, |s|);
    var (from, t2) := Below(t1, |env.splice| - n + 1).value;
    var (to, _) := Below(t2, |s| - n + 1).value;
    LeadsOverwrite(env, s, d, t);
    assert SplicedOver(env, s, t, l, from, to);
  }

  lemma SpliceOverTape(env: Env, s: seq<Byte>, l: nat, from: nat, to: nat, rest: Tape) returns (tape: Tape)
    requires env.Valid() && 1 <= |s| <= env.maxLen && env.splice != []
    requires LengthPossible(env, |env.splice| - 1, l) && 1 <= l
    requires from + Min(l, |s|) <= |env.splice| && to + Min(l, |s|) <= |s|
    ensures PlanSpliceOverwrite(env, s, tape)
      == Some((Go(Store(to, env.splice[from..from + Min(l, |s|)])), rest))
  {
    hide Below, ChooseBlockLen, LengthPossible;
    var n := Min(l, |s|);
    var last := Words(|s| - n + 1, to) + rest;
    DrawAny(|s| - n + 1, to, rest);
    DrawAny(|env.splice| - n + 1, from, last);
    tape := LengthTape(env, |env.splice| - 1, l, Words(|env.splice| - n + 1, from) + last);
  }

  lemma SpliceOverReached(env: Env, s: seq<Byte>, t: seq<Byte>, rest: Tape) returns (tape: Tape)
    requires env.Valid() && 1 <= |s| <= env.maxLen && SpliceOverLaw(env, s, t)
    ensures Reaches(env, SpliceOverwrite, s, tape, t, rest)
  {
    hide Below, ChooseBlockLen, LengthPossible, After, Leads;
    var l: nat, from: nat, to: nat :| SplicedOver(env, s, t, l, from, to);
    LengthPositive(env, |env.splice| - 1, l);
    tape := SpliceOverTape(env, s, l, from, to, rest);
    OverwriteLeads(env, s, t, Store(to, env.splice[from..from + Min(l, |s|)]), rest);
  }

  ghost predicate SplicedIn(env: Env, s: seq<Byte>, t: seq<Byte>, n: nat, from: nat, to: nat) {
    && LengthPossible(env, |env.splice|, n) && from + n <= |env.splice|
    && Inserted(s, t, to, env.splice[from..from + n])
  }

  ghost predicate SpliceInLaw(env: Env, s: seq<Byte>, t: seq<Byte>) {
    && env.splice != [] && |s| + HAVOC_BLK_XL <= env.maxLen
    && exists n: nat, from: nat, to: nat :: SplicedIn(env, s, t, n, from, to)
  }

  lemma SpliceInObeys(env: Env, s: seq<Byte>, tape: Tape, t: seq<Byte>)
    requires env.Valid() && 1 <= |s| && Leads(env, s, Plan(env, SpliceInsert, s, tape), t)
    ensures SpliceInLaw(env, s, t)
  {
    hide Below, ChooseBlockLen, LengthPossible, After;
    var d := PlanSpliceInsert(env, s, tape);
    LengthIsPossible(env, |env.splice|, tape);
    var op := d.value.0.op;
    LeadsInsert(env, s, d, t);
    assert SplicedIn(env, s, t, op.count, op.from, op.to);
  }

  lemma SpliceInReached(env: Env, s: seq<Byte>, t: seq<Byte>, rest: Tape) returns (tape: Tape)
    requires env.Valid() && 1 <= |s| <= env.maxLen && SpliceInLaw(env, s, t)
    ensures Reaches(env, SpliceInsert, s, tape, t, rest)
  {
    hide Below, ChooseBlockLen, LengthPossible, After;
    var n: nat, from: nat, to: nat :| SplicedIn(env, s, t, n, from, to);
    LengthPositive(env, |env.splice|, n);
    var last := Words(|s| + 1, to) + rest;
    DrawAny(|s| + 1, to, rest);
    DrawAny(|env.splice| - n + 1, from, last);
    tape := LengthTape(env, |env.splice|, n, Words(|env.splice| - n + 1, from) + last);
    InsertLeads(env, s, t, SpliceIn(from, to, n), rest);
  }
}
