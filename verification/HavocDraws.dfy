/** Which values the draws of the havoc stage can give, and how evenly: every one in range, block lengths included. */
module HavocDraws {
  import opened Arithmetic
  import opened Wrappers
  import opened Rng
  import opened HavocPlan

  // ---------------------------------------------------------------- single draws

  /** Words for a draw of `v` below `limit`: the word `v` itself, or none when there is no choice. */
  function Words(limit: nat, v: nat): (w: Tape)
    requires v < limit <= WORD_MAX || (limit <= 1 && v == 0)
  {
    if limit <= 1 then [] else [v]
  }

  /** Every value below the limit can be drawn. */
  lemma DrawAny(limit: nat, v: nat, rest: Tape)
    requires v < limit <= WORD_MAX || (limit <= 1 && v == 0)
    ensures Below(Words(limit, v) + rest, limit) == Some((v, rest))
  {
    if limit <= 1 {
      assert [] + rest == rest;
    } else {
      SomeAccepted(limit);
      AboveLimit(limit, v);
      var tape := [v] + rest;
      assert tape[0] == v && tape[1..] == rest;
    }
  }

  lemma AboveLimit(limit: nat, v: nat)
    requires v < limit && 0 < limit && 0 < Threshold(limit) / limit
    ensures v < Threshold(limit) && v % limit == v
  {
    SmallRemainder(Threshold(limit), limit, v);
  }

  lemma SmallRemainder(t: nat, limit: nat, v: nat)
    requires v < limit && 0 < t / limit
    ensures v < t && v % limit == v
  {
    DivModUnique(v, limit, 0, v);
    if t <= v {
      DivModUnique(t, limit, 0, t);
    }
  }

  // ---------------------------------------------------------------- block lengths

  /** The four classes of block lengths. */
  datatype Class = Small | Medium | Large | Huge

  function Low(c: Class): nat {
    match c
    case Small => 1
    case Medium => 32
    case Large => 128
    case Huge => 1500
  }

  function High(c: Class): nat {
    match c
    case Small => 32
    case Medium => 128
    case Large => 1500
    case Huge => 32768
  }

  /** Before ten minutes there are small blocks only; then one more class with each queue cycle. */
  predicate Available(env: Env, c: Class) {
    match c
    case Small => true
    case Medium => env.runOver10m && 2 <= env.queueCycle
    case Large => env.runOver10m && 3 <= env.queueCycle
    case Huge => env.runOver10m && 3 <= env.queueCycle
  }

  /** The least length of a class under a limit: 1 when the class starts at the limit or above. */
  function Least(c: Class, limit: nat): nat {
    if Low(c) >= limit then 1 else Low(c)
  }

  function Most(c: Class, limit: nat): nat {
    if limit < High(c) then limit else High(c)
  }

  /** How many lengths the class has under the limit. */
  function Choices(c: Class, limit: nat): (n: nat)
    requires 1 <= limit
    ensures 1 <= n <= 32768
  {
    Most(c, limit) - Least(c, limit) + 1
  }

  predicate InClass(c: Class, limit: nat, n: nat) {
    Least(c, limit) <= n <= Most(c, limit)
  }

  /** The lengths that `choose_block_len` can give; 1 for the limit 0. */
  predicate LengthPossible(env: Env, limit: nat, n: nat) {
    if limit == 0 then n == 1
    else exists c: Class :: Available(env, c) && InClass(c, limit, n)
  }

  /** How many classes there are to draw from, the last two counting as one. */
  function Cycles(env: Env): nat {
    if !env.runOver10m then 1 else if env.queueCycle < 3 then env.queueCycle else 3
  }

  /** Words that select a class. */
  function Selector(env: Env, c: Class): Tape
    requires Available(env, c)
  {
    match c
    case Small => if Cycles(env) <= 1 then [] else [0]
    case Medium => [1]
    case Large => [2, 1]
    case Huge => [2, 0]
  }

  lemma ClassSelected(env: Env, c: Class, rest: Tape)
    requires Available(env, c)
    ensures BlockRange(env, Selector(env, c) + rest) == Some(((Low(c), High(c)), rest))
  {
    hide Below;
    var cycles := Cycles(env);
    match c
    case Small =>
      DrawAny(cycles, 0, rest);
    case Medium =>
      DrawAny(cycles, 1, rest);
    case Large =>
      DrawAny(3, 2, [1] + rest);
      DrawAny(10, 1, rest);
      assert [2] + ([1] + rest) == [2, 1] + rest;
    case Huge =>
      DrawAny(3, 2, [0] + rest);
      DrawAny(10, 0, rest);
      assert [2] + ([0] + rest) == [2, 0] + rest;
  }

  /** Whatever words come, the range is that of an available class. */
  lemma ClassAvailable(env: Env, tape: Tape) returns (c: Class)
    requires BlockRange(env, tape).Some?
    ensures Available(env, c) && BlockRange(env, tape).value.0 == (Low(c), High(c))
  {
    hide Below;
    var (which, t1) := Below(tape, Cycles(env)).value;
    if which == 0 {
      c := Small;
    } else if which == 1 {
      c := Medium;
    } else {
      var (big, _) := Below(t1, 10).value;
      c := if big != 0 then Large else Huge;
    }
  }

  lemma ChosenAbove(env: Env, c: Class, limit: nat, sel: Tape, more: Tape)
    requires 1 <= limit && BlockRange(env, sel + more) == Some(((Low(c), High(c)), more))
    ensures ChooseBlockLen(env, limit, sel + more) ==
      match Below(more, Choices(c, limit))
      case None => None
      case Some((r, rest)) => Some((Least(c, limit) + r, rest))
  {
    hide Below, BlockRange;
  }

  /** Behind the selector one accepted word decides: the least length of the class plus its residue. */
  lemma LengthDrawn(env: Env, c: Class, limit: nat, w: Word, rest: Tape)
    requires Available(env, c) && 1 <= limit
    ensures var n := Choices(c, limit);
      && (n == 1 ==> ChooseBlockLen(env, limit, Selector(env, c) + rest) == Some((Least(c, limit), rest)))
      && (2 <= n && Accepted(w, n) ==>
            ChooseBlockLen(env, limit, Selector(env, c) + ([w] + rest)) == Some((Least(c, limit) + w % n, rest)))
  {
    hide Below, BlockRange, ChooseBlockLen, Accepted, Choices, Least, Selector;
    var n := Choices(c, limit);
    ClassSelected(env, c, rest);
    ClassSelected(env, c, [w] + rest);
    ChosenAbove(env, c, limit, Selector(env, c), rest);
    ChosenAbove(env, c, limit, Selector(env, c), [w] + rest);
    if n == 1 {
      DrawAny(1, 0, rest);
      assert Words(1, 0) + rest == rest;
    } else if Accepted(w, n) {
      FirstAccepted([w] + rest, n, 0);
      assert ([w] + rest)[1..] == rest;
    }
  }

  /** Behind the selector, each length of a class is drawn from equally many words. */
  lemma LengthsEven(env: Env, c: Class, limit: nat, n: nat)
    requires Available(env, c) && 1 <= limit && 2 <= Choices(c, limit) && InClass(c, limit, n)
    ensures |LengthWords(env, c, limit, n)| == WORD_MAX / Choices(c, limit) > 0
  {
    hide Below, BlockRange, ChooseBlockLen, Choices, Least, Selector;
    var k, sel := Choices(c, limit), Selector(env, c);
    ChoicesAre(c, limit, n);
    var r := n - Least(c, limit);
    Unbiased(k, r);
    forall w: int | 0 <= w <= WORD_MAX
      ensures w in LengthWords(env, c, limit, n) <==> w in Drawing(k, r)
    {
      ClassSelected(env, c, [w]);
      ChosenAbove(env, c, limit, sel, [w]);
    }
    assert LengthWords(env, c, limit, n) == Drawing(k, r);
  }

  ghost function LengthWords(env: Env, c: Class, limit: nat, n: nat): set<int>
    requires Available(env, c)
  {
    set w: int | 0 <= w <= WORD_MAX && ChooseBlockLen(env, limit, Selector(env, c) + [w]) == Some((n, []))
  }

  /** `choose_block_len` gives possible lengths only. */
  lemma LengthIsPossible(env: Env, limit: nat, tape: Tape)
    requires ChooseBlockLen(env, limit, tape).Some?
    ensures LengthPossible(env, limit, ChooseBlockLen(env, limit, tape).value.0)
  {
    hide Below, BlockRange;
    var c := ClassAvailable(env, tape);
    var n := ChooseBlockLen(env, limit, tape).value.0;
    if limit > 0 {
      assert InClass(c, limit, n);
    }
  }

  /** And it can give each of them. */
  lemma LengthTape(env: Env, limit: nat, n: nat, rest: Tape) returns (tape: Tape)
    requires LengthPossible(env, limit, n)
    ensures ChooseBlockLen(env, limit, tape) == Some((n, rest))
  {
    hide ChooseBlockLen, Accepted, Choices, Least, Most, Selector, Available;
    if limit == 0 {
      tape := ZeroLimit(env, rest);
    } else {
      var c :| Available(env, c) && InClass(c, limit, n);
      var k := Choices(c, limit);
      var w := n - Least(c, limit);
      ChoicesAre(c, limit, n);
      LengthDrawn(env, c, limit, w, rest);
      if k == 1 {
        tape := Selector(env, c) + rest;
      } else {
        SomeAccepted(k);
        AboveLimit(k, w);
        AcceptedBelow(w, k);
        tape := Selector(env, c) + ([w] + rest);
      }
    }
  }

  lemma ChoicesAre(c: Class, limit: nat, n: nat)
    requires 1 <= limit && InClass(c, limit, n)
    ensures Least(c, limit) <= n < Least(c, limit) + Choices(c, limit)
  {
  }

  lemma ZeroLimit(env: Env, rest: Tape) returns (tape: Tape)
    ensures ChooseBlockLen(env, 0, tape) == Some((1, rest))
  {
    hide Below, BlockRange;
    ClassSelected(env, Small, rest);
    tape := Selector(env, Small) + rest;
    DrawAny(0, 0, rest);
    assert Words(0, 0) + rest == rest;
  }

  lemma AcceptedBelow(w: Word, k: nat)
    requires 0 < k && w < Threshold(k)
    ensures Accepted(w, k)
  {
  }

  /** The lengths are exactly the possible ones. */
  lemma LengthsExactly(env: Env, limit: nat, n: nat)
    ensures (exists tape :: ChooseBlockLen(env, limit, tape).Some? && ChooseBlockLen(env, limit, tape).value.0 == n)
      <==> LengthPossible(env, limit, n)
  {
    hide ChooseBlockLen, LengthPossible;
    if tape :| ChooseBlockLen(env, limit, tape).Some? && ChooseBlockLen(env, limit, tape).value.0 == n {
      LengthIsPossible(env, limit, tape);
    }
    if LengthPossible(env, limit, n) {
      var tape := LengthTape(env, limit, n, []);
      assert ChooseBlockLen(env, limit, tape).Some?;
    }
  }

  /** Before ten minutes: every length from 1 to 32 and to the limit, with one word each. */
  lemma EarlyLengths(env: Env, limit: nat, n: nat)
    requires !env.runOver10m && 2 <= limit && 1 <= n <= 32 && n <= limit
    ensures ChooseBlockLen(env, limit, [n - 1]) == Some((n, []))
  {
    hide ChooseBlockLen, Accepted;
    var k := Choices(Small, limit);
    LengthDrawn(env, Small, limit, n - 1, []);
    SomeAccepted(k);
    AboveLimit(k, n - 1);
    AcceptedBelow(n - 1, k);
    assert Selector(env, Small) + ([n - 1] + []) == [n - 1];
  }
}
