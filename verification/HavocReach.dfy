/** The laws of the remaining kinds, and the exact law of every kind. */
module HavocReach {
  import opened Arithmetic
  import opened Bytes
  import opened Wrappers
  import opened Decimal
  import opened Rng
  import opened HavocEdits
  import opened HavocShuffle
  import opened HavocNumber
  import opened HavocPlan
  import opened HavocSteps
  import opened HavocLaws
  import opened HavocDraws
  import opened HavocKinds
  import opened HavocBlockKinds

  // ---------------------------------------------------------------- trading two blocks

  /** The blocks of `n` bytes at `a` and `b` trade places. */
  ghost predicate Swapped(s: seq<Byte>, t: seq<Byte>, a: nat, b: nat, n: nat) {
    && a + n <= b && b + n <= |s|
    && t == Glue5(s[..a], s[b..b + n], s[a + n..b], s[a..a + n], s[b + n..])
  }

  ghost predicate SwitchAt(env: Env, s: seq<Byte>, t: seq<Byte>, a: nat, b: nat, n: nat) {
    a < b < |s| && LengthPossible(env, Min(b - a, |s| - b), n) && Swapped(s, t, a, b, n)
  }

  ghost predicate SwitchLaw(env: Env, s: seq<Byte>, t: seq<Byte>) {
    if |s| < 4 then t == s else exists a: nat, b: nat, n: nat :: SwitchAt(env, s, t, a, b, n)
  }

  lemma SwitchEdit(env: Env, s: seq<Byte>, op: Op)
    requires 1 <= |s| <= env.maxLen && op.Switch? && OpOk(env, |s|, op) && 1 <= op.count
    ensures Swapped(s, After(env, s, op), Min(op.from, op.to), if op.from <= op.to then op.to else op.from, op.count)
  {
    hide Glue5;
  }

  lemma SwapLeads(env: Env, s: seq<Byte>, t: seq<Byte>, a: nat, b: nat, n: nat, rest: Tape)
    requires 1 <= |s| <= env.maxLen && a <= b && 1 <= n && Swapped(s, t, a, b, n)
    ensures Leads(env, s, Some((Go(Switch(a, b, n)), rest)), t)
  {
    hide After, Glue5;
    SwitchEdit(env, s, Switch(a, b, n));
  }

  lemma LeadsSwap(env: Env, s: seq<Byte>, d: Decision, t: seq<Byte>)
    requires Leads(env, s, d, t) && d.value.0.op.Switch? && 1 <= d.value.0.op.count
    ensures var op := d.value.0.op;
      Swapped(s, t, Min(op.from, op.to), if op.from <= op.to then op.to else op.from, op.count)
  {
    hide After, Glue5, OpOk;
    SwitchEdit(env, s, d.value.0.op);
  }

  lemma SwitchObeys(env: Env, s: seq<Byte>, tape: Tape, t: seq<Byte>)
    requires env.Valid() && 1 <= |s| && Leads(env, s, Plan(env, SwitchBlocks, s, tape), t)
    ensures SwitchLaw(env, s, t)
  {
    hide Below, ChooseBlockLen, LengthPossible, After, DrawOther, Swapped;
    var d := PlanSwitch(env, s, tape);
    if |s| < 4 {
      LeadsNothing(env, s, d, t);
    } else {
      var (from, t1) := Below(tape, |s|).value;
      var (to, t2) := DrawOther(t1, |s|, from).value;
      var a, b := Min(from, to), if from <= to then to else from;
      LengthIsPossible(env, Min(b - a, |s| - b), t2);
      LeadsSwap(env, s, d, t);
      assert SwitchAt(env, s, t, a, b, d.value.0.op.count);
    }
  }

  lemma OtherDrawn(limit: nat, v: nat, other: nat, rest: Tape)
    requires v < limit <= WORD_MAX && 2 <= limit && v != other
    ensures DrawOther(Words(limit, v) + rest, limit, other) == Some((v, rest))
  {
    hide Below;
    DrawAny(limit, v, rest);
  }

  lemma SwitchReached(env: Env, s: seq<Byte>, t: seq<Byte>, rest: Tape) returns (tape: Tape)
    requires env.Valid() && 1 <= |s| <= env.maxLen && SwitchLaw(env, s, t)
    ensures Reaches(env, SwitchBlocks, s, tape, t, rest)
  {
    hide Below, ChooseBlockLen, LengthPossible, After, DrawOther, Swapped;
    if |s| < 4 {
      tape := rest;
      NothingLeads(env, s, rest);
    } else {
      var a: nat, b: nat, n: nat :| SwitchAt(env, s, t, a, b, n);
      var last := LengthTape(env, Min(b - a, |s| - b), n, rest);
      OtherDrawn(|s|, b, a, last);
      DrawAny(|s|, a, Words(|s|, b) + last);
      tape := Words(|s|, a) + (Words(|s|, b) + last);
      LengthPositive(env, Min(b - a, |s| - b), n);
      SwapLeads(env, s, t, a, b, n, rest);
    }
  }

  // ---------------------------------------------------------------- the shuffle

  /** The bytes of one block move along a single cycle. */
  ghost predicate Cycled(s: seq<Byte>, t: seq<Byte>, at: nat, p: seq<nat>) {
    && SingleCycle(p) && IsPermutation(p) && SameOutside(s, t, at, |p|)
    && forall k | 0 <= k < |p| :: t[at + k] == s[at + p[k]]
  }

  ghost predicate ShuffledAt(env: Env, s: seq<Byte>, t: seq<Byte>, at: nat, p: seq<nat>) {
    2 <= |s| && LengthPossible(env, |s| - 1, |p|) && Cycled(s, t, at, p)
  }

  ghost predicate ShuffleLaw(env: Env, s: seq<Byte>, t: seq<Byte>) {
    if |s| < 4 then t == s else exists at: nat, p: seq<nat> :: ShuffledAt(env, s, t, at, p)
  }

  /** Text that follows the same origins is the same. */
  lemma SameCycled(s: seq<Byte>, t: seq<Byte>, now: seq<Byte>, at: nat, p: seq<nat>)
    requires Cycled(s, t, at, p) && Cycled(s, now, at, p)
    ensures t == now
  {
    hide SingleCycle;
    forall k | 0 <= k < |s|
      ensures t[k] == now[k]
    {
      if at <= k < at + |p| {
        var i := k - at;
        assert t[at + i] == s[at + p[i]] == now[at + i];
      }
    }
  }

  lemma AfterShuffle(env: Env, s: seq<Byte>, at: nat, js: seq<nat>)
    requires 1 <= |s| <= env.maxLen && OpOk(env, |s|, Shuffle(at, js))
    ensures var p := Origins(|js| + 1, js);
      Fits(Permute(at, p), |s|) && After(env, s, Shuffle(at, js)) == Apply(Permute(at, p), s)
  {
    hide Apply, Origins, Fits, NewLength, Partners;
    OpIsLegal(env, s, Shuffle(at, js));
  }

  lemma ShuffleDone(env: Env, s: seq<Byte>, at: nat, js: seq<nat>)
    requires 1 <= |s| <= env.maxLen && OpOk(env, |s|, Shuffle(at, js))
    ensures Cycled(s, After(env, s, Shuffle(at, js)), at, Origins(|js| + 1, js))
  {
    hide SingleCycle, Origins, Fits, CycleOrder, Apply, After, Partners, IsPermutation;
    var n := |js| + 1;
    var p := Origins(n, js);
    ShuffleIsOneCycle(n, js);
    CycleIsPermutation(p);
    AfterShuffle(env, s, at, js);
    PermuteAt(s, After(env, s, Shuffle(at, js)), at, p);
    PermuteKeepsLength(s, at, p);
  }

  lemma PermuteKeepsLength(s: seq<Byte>, at: nat, p: seq<nat>)
    requires Fits(Permute(at, p), |s|)
    ensures |Apply(Permute(at, p), s)| == |s| && at + |p| <= |s|
  {
  }

  lemma ShuffleIs(env: Env, s: seq<Byte>, t: seq<Byte>, at: nat, js: seq<nat>)
    requires 1 <= |s| <= env.maxLen && OpOk(env, |s|, Shuffle(at, js))
    ensures Cycled(s, t, at, Origins(|js| + 1, js)) <==> t == After(env, s, Shuffle(at, js))
  {
    hide Cycled, Origins, After, Partners;
    ShuffleDone(env, s, at, js);
    if Cycled(s, t, at, Origins(|js| + 1, js)) {
      SameCycled(s, t, After(env, s, Shuffle(at, js)), at, Origins(|js| + 1, js));
    }
  }

  lemma ShuffleObeys(env: Env, s: seq<Byte>, tape: Tape, t: seq<Byte>)
    requires env.Valid() && 1 <= |s| && Leads(env, s, Plan(env, ShuffleBlock, s, tape), t)
    ensures ShuffleLaw(env, s, t)
  {
    hide Below, ChooseBlockLen, LengthPossible, After, DrawPartners, Origins, Cycled, Partners;
    var d := PlanShuffle(env, s, tape);
    if |s| < 4 {
      LeadsNothing(env, s, d, t);
    } else {
      LengthIsPossible(env, |s| - 1, tape);
      var op := d.value.0.op;
      ShuffleIs(env, s, t, op.at, op.partners);
      PartnerCount(op.partners, ChooseBlockLen(env, |s| - 1, tape).value.0);
      assert ShuffledAt(env, s, t, op.at, Origins(|op.partners| + 1, op.partners));
    }
  }

  lemma PartnerCount(js: seq<nat>, n: nat)
    requires Partners(js, n)
    ensures |js| + 1 == n && Partners(js, |js| + 1)
  {
  }

  lemma {:induction false} PartnersTape(js: seq<nat>, n: nat, rest: Tape) returns (tape: Tape)
    requires Partners(js, n) && n <= WORD_MAX
    ensures DrawPartners(tape, n) == Some((js, rest))
    decreases n
  {
    hide Below, DrawOther;
    if n == 1 {
      tape := rest;
    } else {
      var more := PartnersTape(js[1..], n - 1, rest);
      OtherDrawn(n, js[0], n - 1, more);
      tape := Words(n, js[0]) + more;
      assert js == [js[0]] + js[1..];
    }
  }

  lemma ShuffleReached(env: Env, s: seq<Byte>, t: seq<Byte>, rest: Tape) returns (tape: Tape)
    requires env.Valid() && 1 <= |s| <= env.maxLen && ShuffleLaw(env, s, t)
    ensures Reaches(env, ShuffleBlock, s, tape, t, rest)
  {
    hide Below, ChooseBlockLen, LengthPossible, After, DrawPartners, Origins, SingleCycle, Partners;
    if |s| < 4 {
      tape := rest;
      NothingLeads(env, s, rest);
    } else {
      var at: nat, p: seq<nat> :| ShuffledAt(env, s, t, at, p);
      var n := |p|;
      LengthPositive(env, |s| - 1, n);
      var js := EveryCycleIsDrawn(p);
      PartnerCount(js, n);
      var last := PartnersTape(js, n, rest);
      DrawAny(|s| - n + 1, at, last);
      tape := LengthTape(env, |s| - 1, n, Words(|s| - n + 1, at) + last);
      ShuffleIs(env, s, t, at, js);
      OpLeads(env, s, Shuffle(at, js), rest);
    }
  }

  // ---------------------------------------------------------------- random digits

  ghost predicate DigitsOver(s: seq<Byte>, t: seq<Byte>, at: nat, digits: seq<Byte>) {
    AllDigits(digits) && 1 <= |digits| <= 8 && Overwritten(s, t, at, digits)
  }

  /** Any one to eight digits over any place; or nothing, in a short buffer. */
  ghost predicate InsertAsciiLaw(s: seq<Byte>, t: seq<Byte>) {
    (|s| < 8 && t == s) || exists at: nat, digits: seq<Byte> :: DigitsOver(s, t, at, digits)
  }

  lemma {:induction false} DigitsOf(s: seq<Byte>)
    requires AllDigits(s) && s != [] && s[0] != 48
    ensures Digits(ValueOf(s)) == s && 0 < ValueOf(s)
    decreases |s|
  {
    var last := |s| - 1;
    var t, d := s[..last], s[last];
    assert s == t + [d];
    ValueSnoc(t, d);
    if last > 0 {
      DigitsOf(t);
      DigitsStep(ValueOf(s));
      assert ValueOf(s) / 10 == ValueOf(t) && ValueOf(s) % 10 == d - 48;
    } else {
      assert t == [] && ValueOf([]) == 0;
    }
  }

  /** A random number that ends in the given digits and has one more in front. */
  lemma NumberEndingIn(digits: seq<Byte>) returns (n: Word)
    requires AllDigits(digits) && 1 <= |digits| <= 8
    ensures |digits| <= |Digits(n)| && LastDigits(n, |digits|) == digits
  {
    hide Digits, ValueOf, Pow10;
    var s := [49] + digits;
    assert AllDigits(s);
    DigitsOf(s);
    ValueBound(s);
    Pow10At19();
    PowersGrow(|s|, 19);
    n := ValueOf(s);
    assert s[1..] == digits;
  }

  lemma {:induction false} PowersGrow(a: nat, b: nat)
    requires a <= b
    ensures Pow10(a) <= Pow10(b)
    decreases b
  {
    if a < b {
      PowersGrow(a, b - 1);
    }
  }

  lemma InsertAsciiObeys(env: Env, s: seq<Byte>, tape: Tape, t: seq<Byte>)
    requires env.Valid() && 1 <= |s| && Leads(env, s, Plan(env, InsertAsciiNum, s, tape), t)
    ensures InsertAsciiLaw(s, t)
  {
    hide Below, After, Digits, LastDigits;
    var d := PlanInsertAsciiNum(env, s, tape);
    if d.value.0.op.Nothing? {
      LeadsNothing(env, s, d, t);
    } else {
      var (more, _) := Below(tape, 8).value;
      LeadsOverwrite(env, s, d, t);
      assert DigitsOver(s, t, d.value.0.op.at, d.value.0.op.data);
    }
  }

  lemma InsertAsciiReached(env: Env, s: seq<Byte>, t: seq<Byte>, rest: Tape) returns (tape: Tape)
    requires env.Valid() && 1 <= |s| <= env.maxLen && InsertAsciiLaw(s, t)
    ensures Reaches(env, InsertAsciiNum, s, tape, t, rest)
  {
    hide Below, After, Digits, LastDigits, DigitsOver;
    if at: nat, digits: seq<Byte> :| DigitsOver(s, t, at, digits) {
      tape := DigitsTape(env, s, t, at, digits, rest);
    } else {
      DrawAny(|s|, 0, rest);
      DrawAny(8, 7, Words(|s|, 0) + rest);
      tape := Words(8, 7) + (Words(|s|, 0) + rest);
      NothingLeads(env, s, rest);
    }
  }

  lemma DigitsTape(env: Env, s: seq<Byte>, t: seq<Byte>, at: nat, digits: seq<Byte>, rest: Tape) returns (tape: Tape)
    requires env.Valid() && 1 <= |s| <= env.maxLen && DigitsOver(s, t, at, digits)
    ensures Reaches(env, InsertAsciiNum, s, tape, t, rest)
  {
    hide Below, After, Digits, LastDigits;
    var n := NumberEndingIn(digits);
    var c := |digits|;
    DrawAny(|s|, at, [n] + rest);
    DrawAny(8, c - 1, Words(|s|, at) + ([n] + rest));
    tape := Words(8, c - 1) + (Words(|s|, at) + ([n] + rest));
    assert ([n] + rest)[0] == n && ([n] + rest)[1..] == rest;
    OverwriteLeads(env, s, t, Store(at, digits), rest);
  }

  // ---------------------------------------------------------------- a changed number

  ghost predicate HasDigit(s: seq<Byte>) {
    exists k :: 0 <= k < |s| && IsDigit(s[k])
  }

  ghost predicate Renumbered(maxLen: nat, s: seq<Byte>, t: seq<Byte>, off: nat, until: nat, left: nat, strat: nat,
                             now: int)
  {
    |t| <= maxLen && NumberReplaced(s, t, off, until, left, strat, now)
  }

  /** Any digit can start the number; any of the eight strategies can change it, when there is room. */
  ghost predicate AsciiLaw(maxLen: nat, s: seq<Byte>, t: seq<Byte>) {
    if |s| < 4 then t == s
    else if !HasDigit(s) then |s| < 8 && t == s
    else exists off: nat, until: nat, left: nat, strat: nat, now: int ::
      Renumbered(maxLen, s, t, off, until, left, strat, now)
  }

  lemma AsciiObeys(env: Env, s: seq<Byte>, tape: Tape, t: seq<Byte>)
    requires env.Valid() && 1 <= |s| && Leads(env, s, Plan(env, AsciiNum, s, tape), t)
    ensures AsciiLaw(env.maxLen, s, t)
  {
    hide NumberReplaced, Plan, After, NumberChosen, Leads;
    var d := Plan(env, AsciiNum, s, tape);
    if |s| < 4 {
      AsciiShort(env, s, tape);
      LeadsNothing(env, s, d, t);
    } else if HasDigit(s) {
      LeadsGoes(env, s, d, t);
      WithDigit(env, s, tape);
      var off, until, left, strat, now := AsciiNumReplaces(env, s, tape, t);
      LengthOk(env, s, d, t);
      assert Renumbered(env.maxLen, s, t, off, until, left, strat, now);
    } else {
      LeadsGoes(env, s, d, t);
      WithoutDigit(env, s, tape);
      LeadsNothing(env, s, d, t);
    }
  }

  lemma LeadsGoes(env: Env, s: seq<Byte>, d: Decision, t: seq<Byte>)
    requires Leads(env, s, d, t)
    ensures d.Some? && d.value.0.Go? && 1 <= |s| <= env.maxLen
  {
  }

  lemma LengthOk(env: Env, s: seq<Byte>, d: Decision, t: seq<Byte>)
    requires Leads(env, s, d, t)
    ensures |t| <= env.maxLen
  {
    OpIsLegal(env, s, d.value.0.op);
  }

  lemma AsciiShort(env: Env, s: seq<Byte>, tape: Tape)
    requires 1 <= |s| < 4
    ensures Plan(env, AsciiNum, s, tape) == Some((Go(Nothing), tape))
  {
    hide ReadNumber;
  }

  lemma WithDigit(env: Env, s: seq<Byte>, tape: Tape)
    requires 4 <= |s| && HasDigit(s) && Plan(env, AsciiNum, s, tape).Some? && Plan(env, AsciiNum, s, tape).value.0.Go?
    ensures !LeavesAlone(Plan(env, AsciiNum, s, tape))
  {
    hide Plan, Below, NumberChosen, FirstDigit, DigitsEnd, ReadOn, Signed;
    NumberNeeded(env, s, tape);
    var found := FindNumber(s, Below(tape, |s|).value.0);
    var off, until, left, strat, now := NumberDrawn(env, s, tape);
  }

  lemma WithoutDigit(env: Env, s: seq<Byte>, tape: Tape)
    requires 4 <= |s| && !HasDigit(s) && Plan(env, AsciiNum, s, tape).Some? && Plan(env, AsciiNum, s, tape).value.0.Go?
    ensures |s| < 8 && Plan(env, AsciiNum, s, tape).value.0.op == Nothing
  {
    hide Below, FirstDigit, DigitsEnd, ReadOn, Signed, Changed;
    var found := FindNumber(s, Below(tape, |s|).value.0);
    assert found.None?;
  }

  lemma {:induction false} ValuePrefix(s: seq<Byte>, n: nat)
    requires AllDigits(s) && n <= |s|
    ensures AllDigits(s[..n]) && ValueOf(s[..n]) <= ValueOf(s)
    decreases |s|
  {
    if n < |s| {
      var last := |s| - 1;
      ValuePrefix(s[..last], n);
      assert s[..last][..n] == s[..n];
    } else {
      assert s[..n] == s;
    }
  }

  /** The span of a number is known from its first digit. */
  lemma SpanUnique(s: seq<Byte>, off: nat, a: nat, b: nat)
    requires Maximal(s, off, a) && Maximal(s, off, b)
    ensures a == b
  {
    hide ValueOf;
    if a < b {
      SpanOrdered(s, off, a, b);
    } else if b < a {
      SpanOrdered(s, off, b, a);
    }
  }

  lemma SpanOrdered(s: seq<Byte>, off: nat, a: nat, b: nat)
    requires Maximal(s, off, a) && Maximal(s, off, b)
    ensures b <= a
  {
    hide ValueOf;
    if a < b {
      SpanPrefix(s, off, a, b);
    }
  }

  lemma SpanPrefix(s: seq<Byte>, off: nat, a: nat, b: nat)
    requires off <= a < b <= |s| && AllDigits(s[off..b])
    ensures IsDigit(s[a]) && AllDigits(s[off..a + 1]) && ValueOf(s[off..a + 1]) <= ValueOf(s[off..b])
  {
    hide ValueOf;
    var whole := s[off..b];
    assert whole[a - off] == s[a];
    ValuePrefix(whole, a + 1 - off);
    assert whole[..a + 1 - off] == s[off..a + 1];
  }

  lemma FoundAt(s: seq<Byte>, off: nat)
    requires off < |s| && IsDigit(s[off])
    ensures FindNumber(s, off) == Some(off)
  {
  }

  lemma ReadAtDigit(s: seq<Byte>, off: nat, until: nat)
    requires Maximal(s, off, until)
    ensures ReadNumber(s, off) == Some(Number(off, until, SignedValue(s, off, until)))
  {
    hide ValueOf, FindNumber, ReadOn, DigitsEnd, Maximal;
    MaximalStart(s, off, until);
    FoundAt(s, off);
    ReadNumberIs(s, off);
    SpanUnique(s, off, until, ReadNumber(s, off).value.until);
  }

  lemma MaximalStart(s: seq<Byte>, off: nat, until: nat)
    requires Maximal(s, off, until)
    ensures off < until <= |s| && IsDigit(s[off]) && AllDigits(s[off..until])
  {
    hide ValueOf;
    assert s[off..until][0] == s[off];
  }

  /** Words with which a strategy gives a result that it can give. */
  lemma StrategyTape(strat: nat, v: int, now: int, rest: Tape) returns (tape: Tape)
    requires strat < 8 && InInt64(v) && StrategyResult(strat, v, now)
    ensures Changed(strat, v, tape) == Some((now, rest))
  {
    hide Below;
    if strat == 4 && 0 < v < 0x1999_9999 {
      tape := [now] + rest;
      assert tape[0] == now && tape[1..] == rest;
      DivModUnique(now, 10 * v, 0, now);
    } else if strat == 4 {
      DrawAny(256, now, rest);
      tape := Words(256, now) + rest;
    } else if strat == 5 {
      DrawAny(256, now - v, rest);
      tape := Words(256, now - v) + rest;
    } else if strat == 6 {
      DrawAny(256, v - now, rest);
      tape := Words(256, v - now) + rest;
    } else {
      tape := rest;
    }
  }

  lemma NumberPlanned(env: Env, s: seq<Byte>, off: nat, until: nat, left: nat, strat: nat, now: int, rest: Tape)
    returns (tape: Tape)
    requires env.Valid() && 4 <= |s| <= env.maxLen && NumberChosen(s, off, until, left, strat, now)
    requires |s| - (left - off) + |Signed(now)| <= env.maxLen
    ensures Plan(env, AsciiNum, s, tape) == Some((Go(
      if left - off == |Signed(now)| then Store(off, Signed(now)) else Renumber(off, left, Signed(now))), rest))
  {
    hide Below, ReadNumber, Signed, Changed, ValueOf, Negated, StrategyResult, Maximal, DropsDigit, TruncDiv, NeedsRoom;
    MaximalStart(s, off, until);
    ReadAtDigit(s, off, until);
    AdjustedIs(s, off, until, strat);
    var value := SignedValue(s, off, until);
    NumberFits(s, off);
    DropsWhen(strat, value);
    ChangedFits(strat, value, rest);
    var words := StrategyTape(strat, SignedValue(s, off, left), now, rest);
    ChangedFits(strat, value, words);
    Printed(now);
    DrawAny(8, strat, words);
    DrawAny(|s|, off, Words(8, strat) + words);
    tape := Words(|s|, off) + (Words(8, strat) + words);
  }

  lemma NumberLeads(env: Env, s: seq<Byte>, t: seq<Byte>, off: nat, left: nat, digits: seq<Byte>, rest: Tape)
    requires 1 <= |s| <= env.maxLen && off < left <= |s| && 0 < |digits|
    requires |s| - (left - off) + |digits| <= env.maxLen && t == s[..off] + digits + s[left..]
    ensures var op := if left - off == |digits| then Store(off, digits) else Renumber(off, left, digits);
      Leads(env, s, Some((Go(op), rest)), t)
  {
    hide AllDigits;
  }

  lemma AsciiReached(env: Env, s: seq<Byte>, t: seq<Byte>, rest: Tape) returns (tape: Tape)
    requires env.Valid() && 1 <= |s| <= env.maxLen && AsciiLaw(env.maxLen, s, t)
    ensures Reaches(env, AsciiNum, s, tape, t, rest)
  {
    hide Plan, After, NumberChosen, Leads, Signed;
    if |s| < 4 {
      tape := rest;
      AsciiShort(env, s, tape);
      NothingLeads(env, s, rest);
    } else if HasDigit(s) {
      var off: nat, until: nat, left: nat, strat: nat, now: int :|
        Renumbered(env.maxLen, s, t, off, until, left, strat, now);
      ChosenInside(s, off, until, left, strat, now);
      tape := NumberPlanned(env, s, off, until, left, strat, now, rest);
      NumberLeads(env, s, t, off, left, Signed(now), rest);
    } else {
      DrawAny(|s|, 0, rest);
      tape := Words(|s|, 0) + rest;
      NoNumber(env, s, tape, rest);
      NothingLeads(env, s, rest);
    }
  }

  lemma NoNumber(env: Env, s: seq<Byte>, tape: Tape, rest: Tape)
    requires 4 <= |s| < 8 && !HasDigit(s) && Below(tape, |s|) == Some((0, rest))
    ensures Plan(env, AsciiNum, s, tape) == Some((Go(Nothing), rest))
  {
    hide Below, FirstDigit, DigitsEnd, ReadOn, Signed, Changed;
    var found := FindNumber(s, 0);
    assert found.None?;
  }

  // ---------------------------------------------------------------- every kind

  /** What a kind can make of a buffer. */
  ghost predicate KindLaw(env: Env, kind: Kind, s: seq<Byte>, t: seq<Byte>) {
    if IsByteKind(kind) then ByteLaw(kind, s, t)
    else if IsKind16(kind) then Law16(kind, s, t)
    else if IsKind32(kind) then Law32(kind, s, t)
    else
      match kind
      case CloneCopy => CloneCopyLaw(env, s, t)
      case CloneFixed => CloneFixedLaw(env, s, t)
      case OverwriteCopy => OverwriteCopyLaw(env, s, t)
      case OverwriteFixed => OverwriteFixedLaw(env, s, t)
      case SwitchBlocks => SwitchLaw(env, s, t)
      case Del => DelLaw(env, s, t)
      case ShuffleBlock => ShuffleLaw(env, s, t)
      case DelOne => DelOneLaw(s, t)
      case InsertOne => InsertOneLaw(env, s, t)
      case AsciiNum => AsciiLaw(env.maxLen, s, t)
      case InsertAsciiNum => InsertAsciiLaw(s, t)
      case ExtraOverwrite => TokenOverLaw(env.extras, s, t)
      case ExtraInsert => TokenInLaw(env.extras, env.maxLen, s, t)
      case AutoExtraOverwrite => TokenOverLaw(env.autoExtras, s, t)
      case AutoExtraInsert => TokenInLaw(env.autoExtras, env.maxLen, s, t)
      case SpliceOverwrite => SpliceOverLaw(env, s, t)
      case _ => SpliceInLaw(env, s, t)
  }

  lemma TokensShort(env: Env)
    requires env.Valid()
    ensures ShortTokens(env.extras) && ShortTokens(env.autoExtras)
  {
  }

  lemma ExtraOverwriteObeys(env: Env, s: seq<Byte>, tape: Tape, t: seq<Byte>)
    requires env.Valid() && 1 <= |s| && Leads(env, s, Plan(env, ExtraOverwrite, s, tape), t)
    ensures TokenOverLaw(env.extras, s, t)
  {
    hide PlanExtraOverwrite, Leads, ShortTokens, TokenOverLaw;
    TokenOverObeys(env, env.extras, s, tape, t);
  }

  lemma ExtraOverwriteReached(env: Env, s: seq<Byte>, t: seq<Byte>, rest: Tape) returns (tape: Tape)
    requires env.Valid() && 1 <= |s| <= env.maxLen && TokenOverLaw(env.extras, s, t)
    ensures Reaches(env, ExtraOverwrite, s, tape, t, rest)
  {
    hide PlanExtraOverwrite, Leads, TokenOverLaw;
    TokensShort(env);
    tape := TokenOverReached(env, env.extras, s, t, rest);
  }

  lemma AutoExtraOverwriteObeys(env: Env, s: seq<Byte>, tape: Tape, t: seq<Byte>)
    requires env.Valid() && 1 <= |s| && Leads(env, s, Plan(env, AutoExtraOverwrite, s, tape), t)
    ensures TokenOverLaw(env.autoExtras, s, t)
  {
    hide PlanExtraOverwrite, Leads, ShortTokens, TokenOverLaw;
    TokenOverObeys(env, env.autoExtras, s, tape, t);
  }

  lemma AutoExtraOverwriteReached(env: Env, s: seq<Byte>, t: seq<Byte>, rest: Tape) returns (tape: Tape)
    requires env.Valid() && 1 <= |s| <= env.maxLen && TokenOverLaw(env.autoExtras, s, t)
    ensures Reaches(env, AutoExtraOverwrite, s, tape, t, rest)
  {
    hide PlanExtraOverwrite, Leads, TokenOverLaw;
    TokensShort(env);
    tape := TokenOverReached(env, env.autoExtras, s, t, rest);
  }

  lemma ExtraInsertObeys(env: Env, s: seq<Byte>, tape: Tape, t: seq<Byte>)
    requires env.Valid() && 1 <= |s| && Leads(env, s, Plan(env, ExtraInsert, s, tape), t)
    ensures TokenInLaw(env.extras, env.maxLen, s, t)
  {
    hide PlanExtraInsert, Leads, ShortTokens, TokenInLaw;
    TokensShort(env);
    TokenInObeys(env, env.extras, s, tape, t);
  }

  lemma ExtraInsertReached(env: Env, s: seq<Byte>, t: seq<Byte>, rest: Tape) returns (tape: Tape)
    requires env.Valid() && 1 <= |s| <= env.maxLen && TokenInLaw(env.extras, env.maxLen, s, t)
    ensures Reaches(env, ExtraInsert, s, tape, t, rest)
  {
    hide PlanExtraInsert, Leads, TokenInLaw;
    TokensShort(env);
    tape := TokenInReached(env, env.extras, s, t, rest);
  }

  lemma AutoExtraInsertObeys(env: Env, s: seq<Byte>, tape: Tape, t: seq<Byte>)
    requires env.Valid() && 1 <= |s| && Leads(env, s, Plan(env, AutoExtraInsert, s, tape), t)
    ensures TokenInLaw(env.autoExtras, env.maxLen, s, t)
  {
    hide PlanExtraInsert, Leads, ShortTokens, TokenInLaw;
    TokensShort(env);
    TokenInObeys(env, env.autoExtras, s, tape, t);
  }

  lemma AutoExtraInsertReached(env: Env, s: seq<Byte>, t: seq<Byte>, rest: Tape) returns (tape: Tape)
    requires env.Valid() && 1 <= |s| <= env.maxLen && TokenInLaw(env.autoExtras, env.maxLen, s, t)
    ensures Reaches(env, AutoExtraInsert, s, tape, t, rest)
  {
    hide PlanExtraInsert, Leads, TokenInLaw;
    TokensShort(env);
    tape := TokenInReached(env, env.autoExtras, s, t, rest);
  }

  /** Every decision to go ahead obeys the law of its kind. */
  lemma KindObeys(env: Env, kind: Kind, s: seq<Byte>, tape: Tape, t: seq<Byte>)
    requires env.Valid() && 1 <= |s| && Leads(env, s, Plan(env, kind, s, tape), t)
    ensures KindLaw(env, kind, s, t)
  {
    hide Plan, Leads, ByteLaw, Law16, Law32, CloneCopyLaw, CloneFixedLaw, OverwriteCopyLaw, OverwriteFixedLaw,
      SwitchLaw, DelLaw, ShuffleLaw, DelOneLaw, InsertOneLaw, AsciiLaw, InsertAsciiLaw, TokenOverLaw, TokenInLaw,
      SpliceOverLaw, SpliceInLaw, ShortTokens;
    if IsByteKind(kind) {
      ByteObeys(env, kind, s, tape, t);
    } else if IsKind16(kind) {
      Obeys16(env, kind, s, tape, t);
    } else if IsKind32(kind) {
      Obeys32(env, kind, s, tape, t);
    } else {
      BlockObeys(env, kind, s, tape, t);
    }
  }

  lemma BlockObeys(env: Env, kind: Kind, s: seq<Byte>, tape: Tape, t: seq<Byte>)
    requires env.Valid() && 1 <= |s| && Leads(env, s, Plan(env, kind, s, tape), t)
    requires !IsByteKind(kind) && !IsKind16(kind) && !IsKind32(kind)
    ensures KindLaw(env, kind, s, t)
  {
    hide Plan, Leads, ByteLaw, Law16, Law32, CloneCopyLaw, CloneFixedLaw, OverwriteCopyLaw, OverwriteFixedLaw,
      SwitchLaw, DelLaw, ShuffleLaw, DelOneLaw, InsertOneLaw, AsciiLaw, InsertAsciiLaw, TokenOverLaw, TokenInLaw,
      SpliceOverLaw, SpliceInLaw, ShortTokens;
    match kind
    case CloneCopy => CloneCopyObeys(env, s, tape, t);
    case CloneFixed => CloneFixedObeys(env, s, tape, t);
    case OverwriteCopy => OverwriteCopyObeys(env, s, tape, t);
    case OverwriteFixed => OverwriteFixedObeys(env, s, tape, t);
    case SwitchBlocks => SwitchObeys(env, s, tape, t);
    case Del => DelObeys(env, s, tape, t);
    case ShuffleBlock => ShuffleObeys(env, s, tape, t);
    case DelOne => DelOneObeys(env, s, tape, t);
    case InsertOne => InsertOneObeys(env, s, tape, t);
    case AsciiNum => AsciiObeys(env, s, tape, t);
    case InsertAsciiNum => InsertAsciiObeys(env, s, tape, t);
    case SpliceOverwrite => SpliceOverObeys(env, s, tape, t);
    case SpliceInsert => SpliceInObeys(env, s, tape, t);
    case ExtraOverwrite => ExtraOverwriteObeys(env, s, tape, t);
    case ExtraInsert => ExtraInsertObeys(env, s, tape, t);
    case AutoExtraOverwrite => AutoExtraOverwriteObeys(env, s, tape, t);
    case AutoExtraInsert => AutoExtraInsertObeys(env, s, tape, t);
  }

  /** And whatever the law allows, some words bring about. */
  lemma KindReached(env: Env, kind: Kind, s: seq<Byte>, t: seq<Byte>, rest: Tape) returns (tape: Tape)
    requires env.Valid() && 1 <= |s| <= env.maxLen && KindLaw(env, kind, s, t)
    ensures Reaches(env, kind, s, tape, t, rest)
  {
    hide Plan, Leads, ByteLaw, Law16, Law32, CloneCopyLaw, CloneFixedLaw, OverwriteCopyLaw, OverwriteFixedLaw,
      SwitchLaw, DelLaw, ShuffleLaw, DelOneLaw, InsertOneLaw, AsciiLaw, InsertAsciiLaw, TokenOverLaw, TokenInLaw,
      SpliceOverLaw, SpliceInLaw, ShortTokens;
    if IsByteKind(kind) {
      tape := ByteReached(env, kind, s, t, rest);
    } else if IsKind16(kind) {
      tape := Reached16(env, kind, s, t, rest);
    } else if IsKind32(kind) {
      tape := Reached32(env, kind, s, t, rest);
    } else {
      tape := BlockReached(env, kind, s, t, rest);
    }
  }

  lemma BlockReached(env: Env, kind: Kind, s: seq<Byte>, t: seq<Byte>, rest: Tape) returns (tape: Tape)
    requires env.Valid() && 1 <= |s| <= env.maxLen && KindLaw(env, kind, s, t)
    requires !IsByteKind(kind) && !IsKind16(kind) && !IsKind32(kind)
    ensures Reaches(env, kind, s, tape, t, rest)
  {
    hide Plan, Leads, ByteLaw, Law16, Law32, CloneCopyLaw, CloneFixedLaw, OverwriteCopyLaw, OverwriteFixedLaw,
      SwitchLaw, DelLaw, ShuffleLaw, DelOneLaw, InsertOneLaw, AsciiLaw, InsertAsciiLaw, TokenOverLaw, TokenInLaw,
      SpliceOverLaw, SpliceInLaw, ShortTokens;
    match kind
    case CloneCopy => tape := CloneCopyReached(env, s, t, rest);
    case CloneFixed => tape := CloneFixedReached(env, s, t, rest);
    case OverwriteCopy => tape := OverwriteCopyReached(env, s, t, rest);
    case OverwriteFixed => tape := OverwriteFixedReached(env, s, t, rest);
    case SwitchBlocks => tape := SwitchReached(env, s, t, rest);
    case Del => tape := DelReached(env, s, t, rest);
    case ShuffleBlock => tape := ShuffleReached(env, s, t, rest);
    case DelOne => tape := DelOneReached(env, s, t, rest);
    case InsertOne => tape := InsertOneReached(env, s, t, rest);
    case AsciiNum => tape := AsciiReached(env, s, t, rest);
    case InsertAsciiNum => tape := InsertAsciiReached(env, s, t, rest);
    case ExtraOverwrite => tape := ExtraOverwriteReached(env, s, t, rest);
    case ExtraInsert => tape := ExtraInsertReached(env, s, t, rest);
    case AutoExtraOverwrite => tape := AutoExtraOverwriteReached(env, s, t, rest);
    case AutoExtraInsert => tape := AutoExtraInsertReached(env, s, t, rest);
    case SpliceOverwrite => tape := SpliceOverReached(env, s, t, rest);
    case SpliceInsert => tape := SpliceInReached(env, s, t, rest);
  }

  /** What a kind can make of a buffer is exactly what its law says. */
  lemma KindExactly(env: Env, kind: Kind, s: seq<Byte>, t: seq<Byte>)
    requires env.Valid() && 1 <= |s| <= env.maxLen
    ensures (exists tape :: Leads(env, s, Plan(env, kind, s, tape), t)) <==> KindLaw(env, kind, s, t)
  {
    hide Plan, Leads, KindLaw;
    if tape :| Leads(env, s, Plan(env, kind, s, tape), t) {
      KindObeys(env, kind, s, tape, t);
    }
    if KindLaw(env, kind, s, t) {
      var tape := KindReached(env, kind, s, t, []);
    }
  }
}
