/** `rand_below` of afl-fuzz.h over an arbitrary stream of 64-bit random words. */
module Rng {
  import opened Arithmetic
  import opened Wrappers

  const WORD_MAX: nat := 0xFFFF_FFFF_FFFF_FFFF

  type Word = w: int | 0 <= w <= 0xFFFF_FFFF_FFFF_FFFF

  /** The words that `rand_next` is going to return. */
  type Tape = seq<Word>

  /** A draw gives a value and the rest of the tape; None when the tape runs out first. */
  type Draw = Option<(nat, Tape)>

  /** Words from here on are rejected: the largest multiple of `limit` not above WORD_MAX. */
  function Threshold(limit: nat): (t: nat)
    requires 0 < limit
    ensures t <= WORD_MAX && t % limit == 0
  {
    Multiple(WORD_MAX, limit);
    WORD_MAX - WORD_MAX % limit
  }

  predicate Accepted(w: Word, limit: nat)
    requires 0 < limit
  {
    w < Threshold(limit)
  }

  /** `rand_below(limit)` */
  function Below(tape: Tape, limit: nat): (d: Draw)
    ensures d.Some? ==> |d.value.1| <= |tape| && d.value.0 <= limit && (limit >= 1 ==> d.value.0 < limit)
    ensures d.Some? && limit >= 2 ==> |d.value.1| < |tape|
  {
    if limit <= 1 then Some((0, tape))
    else if tape == [] then None
    else if Accepted(tape[0], limit) then Some((tape[0] % limit, tape[1..]))
    else Below(tape[1..], limit)
  }

  /** The do-while loop: draw until a word is accepted. */
  method RandBelow(tape: Tape, limit: nat) returns (d: Draw)
    ensures d == Below(tape, limit)
  {
    if limit <= 1 {
      return Some((0, tape));
    }
    var rest := tape;
    var word;
    while true
      invariant Below(rest, limit) == Below(tape, limit)
      decreases |rest|
    {
      if rest == [] {
        return None;
      }
      word, rest := rest[0], rest[1..];
      if word < WORD_MAX - WORD_MAX % limit {
        return Some((word % limit, rest));
      }
    }
  }

  /** A draw uses the first accepted word; it runs dry exactly when no word is accepted. */
  lemma {:induction false} FirstAccepted(tape: Tape, limit: nat, k: nat)
    requires 2 <= limit && k <= |tape| && forall i | 0 <= i < k :: !Accepted(tape[i], limit)
    ensures k < |tape| && Accepted(tape[k], limit) ==> Below(tape, limit) == Some((tape[k] % limit, tape[k + 1..]))
    ensures k == |tape| ==> Below(tape, limit) == None
    decreases k
  {
    if k > 0 {
      FirstAccepted(tape[1..], limit, k - 1);
    }
  }

  // ---------------------------------------------------------------- no bias

  /** The words below `bound` that are turned into `r`. */
  function Preimage(bound: nat, limit: nat, r: nat): set<int>
    requires 0 < limit
  {
    set w | 0 <= w < bound && w % limit == r
  }

  lemma {:induction false} PreimageSize(q: nat, limit: nat, r: nat)
    requires r < limit
    ensures |Preimage(q * limit, limit, r)| == q
    decreases q
  {
    if q > 0 {
      var was, now := Preimage((q - 1) * limit, limit, r), Preimage(q * limit, limit, r);
      var w := (q - 1) * limit + r;
      PreimageSize(q - 1, limit, r);
      assert q * limit == (q - 1) * limit + limit;
      forall v
        ensures v in now <==> v in was + {w}
      {
        if (q - 1) * limit <= v < q * limit {
          DivModUnique(v, limit, q - 1, v - (q - 1) * limit);
        }
      }
      assert now == was + {w};
    }
  }

  lemma SomeAccepted(limit: nat)
    requires 2 <= limit <= WORD_MAX
    ensures Threshold(limit) / limit == WORD_MAX / limit > 0 && Threshold(limit) == WORD_MAX / limit * limit
    ensures WORD_MAX + 1 - Threshold(limit) == WORD_MAX % limit + 1 <= limit
  {
    Multiple(WORD_MAX, limit);
    var q := WORD_MAX / limit;
    DivModUnique(Threshold(limit), limit, q, 0);
    if q == 0 {
      assert WORD_MAX == q * limit + WORD_MAX % limit;
    }
  }

  /** The words from which `r` is drawn at once. */
  ghost function Drawing(limit: nat, r: nat): set<int> {
    set w: int | 0 <= w <= WORD_MAX && Below([w], limit) == Some((r, []))
  }

  /** The words that are rejected. */
  ghost function Rejected(limit: nat): set<int> {
    set w: int | 0 <= w <= WORD_MAX && Below([w], limit) == None
  }

  lemma OneWord(limit: nat, w: Word)
    requires 2 <= limit
    ensures Below([w], limit) == if w < WORD_MAX - WORD_MAX % limit then Some((w % limit, [])) else None
  {
    var tape: Tape := [w];
    assert tape[0] == w && tape[1..] == [];
    assert Below([], limit) == None;
  }

  lemma {:induction false} RangeSize(s: set<int>, low: int, high: int)
    requires low <= high && forall w :: w in s <==> low <= w < high
    ensures |s| == high - low
    decreases high - low
  {
    if low == high {
      assert s == {};
    } else {
      var less := s - {low};
      RangeSize(less, low + 1, high);
      assert s == less + {low};
    }
  }

  /**
   Each value below the limit is drawn from equally many words, so `rand_below` is exactly unbiased; and at
   most `limit` of the 2^64 words are rejected.
   */
  lemma Unbiased(limit: nat, r: nat)
    requires 2 <= limit <= WORD_MAX && r < limit
    ensures |Drawing(limit, r)| == WORD_MAX / limit > 0
    ensures |Rejected(limit)| == WORD_MAX % limit + 1 <= limit
  {
    hide Below;
    SomeAccepted(limit);
    var t := Threshold(limit);
    forall w: int | 0 <= w <= WORD_MAX
      ensures w in Drawing(limit, r) <==> w in Preimage(t, limit, r)
      ensures w in Rejected(limit) <==> t <= w
    {
      OneWord(limit, w);
    }
    PreimageSize(WORD_MAX / limit, limit, r);
    assert Drawing(limit, r) == Preimage(t, limit, r);
    RangeSize(Rejected(limit), t, WORD_MAX + 1);
  }
}
