/** MUT_ASCIINUM: find a decimal number in the buffer, read it, change it, print it. */
module HavocNumber {
  import opened Bytes
  import opened Wrappers
  import opened Decimal
  import opened Rng

  const INT64_MAX: int := 0x7FFF_FFFF_FFFF_FFFF
  const INT64_MIN: int := -0x8000_0000_0000_0000

  predicate InInt64(v: int) {
    INT64_MIN <= v <= INT64_MAX
  }

  // ---------------------------------------------------------------- finding

  /** The first place from `from` on with a digit, or the end. */
  function FirstDigit(s: seq<Byte>, from: nat): (i: nat)
    requires from <= |s|
    ensures from <= i <= |s| && (forall k | from <= k < i :: !IsDigit(s[k])) && (i < |s| ==> IsDigit(s[i]))
    decreases |s| - from
  {
    if from == |s| || IsDigit(s[from]) then from else FirstDigit(s, from + 1)
  }

  /** The digit at which the number starts: the first one from `start` on, else the first one before it. */
  function FindNumber(s: seq<Byte>, start: nat): (r: Option<nat>)
    requires start < |s|
    ensures r.None? <==> forall k | 0 <= k < |s| :: !IsDigit(s[k])
    ensures r.Some? ==> r.value < |s| && IsDigit(s[r.value])
    ensures r.Some? && start <= r.value ==> forall k | start <= k < r.value :: !IsDigit(s[k])
    ensures r.Some? && r.value < start ==>
      (forall k | start <= k < |s| :: !IsDigit(s[k])) && (forall k | 0 <= k < r.value :: !IsDigit(s[k]))
  {
    var i := FirstDigit(s, start);
    if i < |s| then Some(i)
    else
      var j := FirstDigit(s[..start], 0);
      assert forall k | 0 <= k < start :: s[..start][k] == s[k];
      if j < start then Some(j) else None
  }

  /** Behind the last of the digits that follow `off`. */
  function DigitsEnd(s: seq<Byte>, i: nat): (e: nat)
    requires i <= |s|
    ensures i <= e <= |s| && (forall k | i <= k < e :: IsDigit(s[k])) && (e < |s| ==> !IsDigit(s[e]))
    decreases |s| - i
  {
    if i == |s| || !IsDigit(s[i]) then i else DigitsEnd(s, i + 1)
  }

  // ---------------------------------------------------------------- reading

  function Digit(b: Byte): (d: nat)
    requires IsDigit(b)
  {
    b - 48
  }

  /** Appending `digit` to `value` would not fit into a signed 64-bit number. */
  predicate Overflows(value: nat, digit: nat) {
    value > INT64_MAX / 10 || value * 10 > INT64_MAX - digit
  }

  /** Reading on from place `i` with `value` so far: the value, and where reading stopped. */
  function ReadOn(s: seq<Byte>, i: nat, end: nat, value: nat): (r: (nat, nat))
    requires i <= end <= |s| && forall k | i <= k < end :: IsDigit(s[k])
    ensures i <= r.1 <= end
    decreases end - i
  {
    if i == end || Overflows(value, Digit(s[i])) then (value, i)
    else ReadOn(s, i + 1, end, value * 10 + Digit(s[i]))
  }

  function Negated(negative: bool, v: int): int {
    if negative then -v else v
  }

  datatype Number = Number(off: nat, until: nat, value: int)

  /** The number that the search from `start` finds, with the sign in front of it. */
  function ReadNumber(s: seq<Byte>, start: nat): (r: Option<Number>)
    requires start < |s|
    ensures r.Some? ==> r.value.off < r.value.until <= |s|
  {
    var off :- FindNumber(s, start);
    var end := DigitsEnd(s, off + 1);
    var (value, until) := ReadOn(s, off + 1, end, Digit(s[off]));
    Some(Number(off, until, Negated(off > 0 && s[off - 1] == MINUS, value)))
  }

  /** The value of the digits in [off, until), with the sign in front of them. */
  function SignedValue(s: seq<Byte>, off: nat, until: nat): int
    requires off <= until <= |s| && AllDigits(s[off..until])
  {
    if off > 0 && s[off - 1] == MINUS then 0 - ValueOf(s[off..until]) else ValueOf(s[off..until])
  }

  /** The span of a number is digits, read to the end or as far as 64 bits go. */
  ghost predicate Maximal(s: seq<Byte>, off: nat, until: nat) {
    && off < until <= |s| && AllDigits(s[off..until]) && ValueOf(s[off..until]) <= INT64_MAX
    && (until < |s| && IsDigit(s[until]) ==> AllDigits(s[off..until + 1]) && ValueOf(s[off..until + 1]) > INT64_MAX)
  }

  lemma {:induction false} ReadOnIs(s: seq<Byte>, off: nat, i: nat, end: nat, value: nat)
    requires off < i <= end <= |s| && (forall k | off <= k < end :: IsDigit(s[k]))
    requires end < |s| ==> !IsDigit(s[end])
    requires AllDigits(s[off..i]) && value == ValueOf(s[off..i]) <= INT64_MAX
    ensures var (v, until) := ReadOn(s, i, end, value);
      Maximal(s, off, until) && v == ValueOf(s[off..until])
    decreases end - i
  {
    hide ValueOf;
    if i < end {
      assert s[off..i + 1] == s[off..i] + [s[i]];
      ValueSnoc(s[off..i], s[i]);
      if !Overflows(value, Digit(s[i])) {
        ReadOnIs(s, off, i + 1, end, value * 10 + Digit(s[i]));
      }
    }
  }

  /** The number read is the value of its span; the span cannot be longer. */
  lemma ReadNumberIs(s: seq<Byte>, start: nat)
    requires start < |s| && ReadNumber(s, start).Some?
    ensures var n := ReadNumber(s, start).value;
      && Maximal(s, n.off, n.until) && n.value == SignedValue(s, n.off, n.until)
      && -INT64_MAX <= n.value <= INT64_MAX
  {
    hide ValueOf;
    var off := FindNumber(s, start).value;
    assert s[off..off + 1] == [s[off]];
    OneDigit(s[off]);
    ReadOnIs(s, off, off + 1, DigitsEnd(s, off + 1), Digit(s[off]));
  }

  lemma OneDigit(d: Byte)
    requires IsDigit(d)
    ensures AllDigits([d]) && ValueOf([d]) == d - 48
  {
    ValueSnoc([], d);
    assert [] + [d] == [d];
  }

  // ---------------------------------------------------------------- changing

  /** C's division: towards zero. */
  function TruncDiv(v: int, d: nat): int
    requires d > 0
  {
    if v < 0 then -((-v) / d) else v / d
  }

  /** The guard in front of strategy `strat`: whether the last digit is given up. */
  predicate DropsDigit(strat: nat, v: int) {
    match strat
    case 0 => v == INT64_MAX
    case 1 => v == INT64_MIN
    case 2 => v > INT64_MAX / 2 || v < INT64_MIN / 2
    case 5 => v > INT64_MAX - 256
    case 6 => v < INT64_MIN + 256
    case _ => false
  }

  function Adjusted(strat: nat, v: int): int {
    if DropsDigit(strat, v) then TruncDiv(v, 10) else v
  }

  /** `(u64)v` */
  function Unsigned64(v: int): nat
    requires InInt64(v)
  {
    if v < 0 then v + 0x1_0000_0000_0000_0000 else v
  }

  /** The eight strategies on the adjusted value. */
  function Changed(strat: nat, v: int, tape: Tape): (r: Option<(int, Tape)>)
    requires InInt64(v)
    ensures r.Some? ==> |r.value.1| <= |tape|
  {
    match strat
    case 0 => Some((v + 1, tape))
    case 1 => Some((v - 1, tape))
    case 2 => Some((v * 2, tape))
    case 3 => Some((TruncDiv(v, 2), tape))
    case 4 =>
      if v != 0 && Unsigned64(v) < 0x1999_9999 then
        if tape == [] then None else Some((tape[0] % (Unsigned64(v) * 10), tape[1..]))
      else
        Below(tape, 256)
    case 5 => var (r, rest) :- Below(tape, 256); Some((v + r, rest))
    case 6 => var (r, rest) :- Below(tape, 256); Some((v - r, rest))
    case _ => Some((-v - 1, tape))
  }

  /** Giving up a digit leaves one at least, and the value of what is left is the adjusted value. */
  lemma AdjustedIs(s: seq<Byte>, off: nat, until: nat, strat: nat)
    requires Maximal(s, off, until)
    ensures var v := SignedValue(s, off, until);
      var left := if DropsDigit(strat, v) then until - 1 else until;
      && off < left && AllDigits(s[off..left]) && SignedValue(s, off, left) == Adjusted(strat, v)
  {
    hide ValueOf;
    var last, head, all := s[until - 1], s[off..until - 1], s[off..until];
    assert all == head + [last] && all[until - 1 - off] == last;
    forall k | 0 <= k < |head|
      ensures IsDigit(head[k])
    {
      assert all[k] == head[k];
    }
    ValueSnoc(head, last);
    if off == until - 1 {
      OneDigit(last);
      assert all == [last];
    }
  }

  /** No strategy overflows 64 bits. */
  lemma ChangedFits(strat: nat, v: int, tape: Tape)
    requires strat < 8 && -INT64_MAX <= v <= INT64_MAX
    ensures InInt64(Adjusted(strat, v))
    ensures var r := Changed(strat, Adjusted(strat, v), tape); r.Some? ==> InInt64(r.value.0)
    ensures strat == 4 && v != 0 && Unsigned64(v) < 0x1999_9999 ==> 0 < Unsigned64(v) * 10 <= 0xFFFF_FFFF
  {
    hide Below;
    if strat == 4 && v != 0 && Unsigned64(v) < 0x1999_9999 && tape != [] {
      assert tape[0] % (v * 10) < v * 10;
    }
  }

  // ---------------------------------------------------------------- printing

  lemma Pow10At19()
    ensures Pow10(19) == 10_000_000_000_000_000_000
  {
    assert Pow10(4) == 10_000;
    Pow10Plus(4, 4);
    Pow10Plus(8, 4);
    Pow10Plus(12, 4);
    Pow10Plus(16, 3);
    assert Pow10(3) == 1000;
  }

  lemma {:induction false} Pow10Plus(a: nat, b: nat)
    ensures Pow10(a + b) == Pow10(a) * Pow10(b)
    decreases b
  {
    if b > 0 {
      Pow10Plus(a, b - 1);
      assert Pow10(a) * (10 * Pow10(b - 1)) == 10 * (Pow10(a) * Pow10(b - 1));
    }
  }

  /** The printed number fits the 32-byte scratch array with its terminator, and reads back. */
  lemma Printed(v: int)
    requires InInt64(v)
    ensures 1 <= |Signed(v)| <= 20
    ensures v >= 0 ==> AllDigits(Signed(v)) && ValueOf(Signed(v)) == v
    ensures v < 0 ==> Signed(v)[0] == MINUS && AllDigits(Signed(v)[1..]) && ValueOf(Signed(v)[1..]) == -v
  {
    hide Digits, ValueOf, Pow10;
    var m := if v < 0 then -v else v;
    Pow10At19();
    DigitsCount(m, 19);
    DigitsRead(m);
  }
}
