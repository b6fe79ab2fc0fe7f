/**
 What each of the 37 kinds of edits can make of a buffer, exactly: a law for each kind, without random
 words, that every decision obeys and that some words reach whenever it holds.
 */
module HavocKinds {
  import opened Bytes
  import opened Wrappers
  import opened Rng
  import opened HavocWords
  import opened HavocPlan
  import opened HavocSteps
  import opened HavocLaws
  import opened HavocDraws

  /** With these words the kind goes ahead, turns `s` into `t` and leaves `rest`. */
  ghost predicate Reaches(env: Env, kind: Kind, s: seq<Byte>, tape: Tape, t: seq<Byte>, rest: Tape)
    requires 1 <= |s|
  {
    var d := Plan(env, kind, s, tape);
    Leads(env, s, d, t) && d.value.1 == rest
  }

  /** Outside of [at, at + n) nothing changes. */
  ghost predicate SameOutside(s: seq<Byte>, t: seq<Byte>, at: nat, n: nat) {
    && |t| == |s| && at + n <= |s|
    && forall k {:trigger t[k]} {:trigger s[k]} | 0 <= k < |s| && !(at <= k < at + n) :: t[k] == s[k]
  }

  lemma StoreIs(env: Env, s: seq<Byte>, t: seq<Byte>, at: nat, data: seq<Byte>)
    requires 1 <= |s| <= env.maxLen && at + |data| <= |s|
    ensures SameOutside(s, t, at, |data|) && t[at..at + |data|] == data <==> t == After(env, s, Store(at, data))
  {
    hide After;
    StoredMany(env, s, at, data);
    var now := After(env, s, Store(at, data));
    if SameOutside(s, t, at, |data|) && t[at..at + |data|] == data {
      forall k | 0 <= k < |s|
        ensures t[k] == now[k]
      {
        if at <= k < at + |data| {
          assert t[at..at + |data|][k - at] == t[k] && now[at..at + |data|][k - at] == now[k];
        }
      }
    }
  }

  lemma LeadsNothing(env: Env, s: seq<Byte>, d: Decision, t: seq<Byte>)
    requires Leads(env, s, d, t) && d.value.0.op == Nothing
    ensures t == s
  {
  }

  lemma NothingLeads(env: Env, s: seq<Byte>, rest: Tape)
    requires 1 <= |s| <= env.maxLen
    ensures Leads(env, s, Some((Go(Nothing), rest)), s)
  {
  }

  /** A decision that is in order leads to what its operation makes. */
  lemma OpLeads(env: Env, s: seq<Byte>, op: Op, rest: Tape)
    requires 1 <= |s| <= env.maxLen && OpOk(env, |s|, op)
    ensures Leads(env, s, Some((Go(op), rest)), After(env, s, op))
  {
    hide After;
  }

  // ---------------------------------------------------------------- one byte

  predicate IsByteKind(kind: Kind) {
    ChangesOne(kind) || kind == Interesting8
  }

  ghost predicate ByteAt(kind: Kind, s: seq<Byte>, t: seq<Byte>, off: nat) {
    off < |s| && SameOutside(s, t, off, 1) && ByteChange(kind, s[off], t[off])
  }

  ghost predicate ByteLaw(kind: Kind, s: seq<Byte>, t: seq<Byte>) {
    exists off: nat :: ByteAt(kind, s, t, off)
  }

  lemma ByteObeys(env: Env, kind: Kind, s: seq<Byte>, tape: Tape, t: seq<Byte>)
    requires 1 <= |s| && IsByteKind(kind) && Leads(env, s, Plan(env, kind, s, tape), t)
    ensures ByteLaw(kind, s, t)
  {
    hide ByteChange, Plan, After;
    var off: nat;
    if ChangesOne(kind) {
      off := OneByteChanges(env, kind, s, tape, t);
    } else {
      off := InterestingByte(env, s, tape, t);
    }
    assert ByteAt(kind, s, t, off);
  }

  /** MUT_INTERESTING8 stores one of the nine interesting values, and changes nothing else. */
  lemma InterestingByte(env: Env, s: seq<Byte>, tape: Tape, t: seq<Byte>) returns (off: nat)
    requires 1 <= |s| && Leads(env, s, Plan(env, Interesting8, s, tape), t)
    ensures ByteAt(Interesting8, s, t, off)
  {
    hide After, Below;
    var (item, t1) := Below(tape, |INTERESTING_8|).value;
    var op := Plan(env, Interesting8, s, tape).value.0.op;
    off := op.at;
    StoreIs(env, s, t, off, op.data);
    assert t[off..off + 1][0] == t[off];
    assert op.data[0] == Wrap(INTERESTING_8[item], 256);
  }

  lemma {:induction false} XorSwap(a: nat, b: nat)
    ensures Xor(a, b) == Xor(b, a)
    decreases a + b
  {
    if a > 0 && b > 0 {
      XorSwap(a / 2, b / 2);
    }
  }

  /** The mask that turns `a` into `b`. */
  lemma MaskFor(a: Byte, b: Byte)
    ensures XorByte(a, XorByte(a, b)) == b && (a != b ==> XorByte(a, b) != 0)
  {
    XorSwap(a, b);
    XorUndoes(b, a);
    XorSwap(a, Xor(a, b));
    XorUndoes(a, b);
    XorSame(a);
    XorZero(a);
  }

  lemma XorZero(a: nat)
    ensures Xor(a, 0) == a
  {
  }

  /** Words for a change of one byte, behind the word for its place. */
  lemma ByteTape(env: Env, kind: Kind, s: seq<Byte>, off: nat, b: Byte, rest: Tape) returns (tape: Tape)
    requires env.Valid() && 1 <= |s| <= env.maxLen && IsByteKind(kind)
    requires off < |s| && ByteChange(kind, s[off], b)
    ensures Plan(env, kind, s, tape) == Some((Go(Store(off, [b])), rest))
  {
    hide Below, XorByte, AddByte;
    var n := |s|;
    var place := Words(n, off) + rest;
    DrawAny(n, off, rest);
    match kind
    case FlipBit =>
      var bit: nat :| bit < 8 && BitFlipped(s[off], b, bit);
      BitChanges(s[off], bit);
      tape := Words(8, bit) + place;
      DrawAny(8, bit, place);
    case Interesting8 =>
      var i: nat :| i < |INTERESTING_8| && b == Wrap(INTERESTING_8[i], 256);
      tape := Words(|INTERESTING_8|, i) + place;
      DrawAny(|INTERESTING_8|, i, place);
    case Rand8 =>
      MaskFor(s[off], b);
      var mask := XorByte(s[off], b);
      tape := Words(n, off) + (Words(255, mask - 1) + rest);
      DrawAny(255, mask - 1, rest);
      DrawAny(n, off, Words(255, mask - 1) + rest);
    case Flip8 =>
      OnesChange(s[off]);
      tape := place;
    case ByteAdd =>
      AddChanges(s[off], 1);
      tape := place;
    case ByteSub =>
      AddChanges(s[off], -1);
      tape := place;
    case Arith8 =>
      var item: nat :| 1 <= item <= ARITH_MAX && Moved(s[off], b, item);
      AddChanges(s[off], item);
      tape := Words(ARITH_MAX, item - 1) + place;
      DrawAny(ARITH_MAX, item - 1, place);
    case Arith8Sub =>
      var item: nat :| 1 <= item <= ARITH_MAX && Moved(b, s[off], item);
      AddChanges(s[off], -(item as int));
      MovedBack(b, s[off], item);
      tape := Words(ARITH_MAX, item - 1) + place;
      DrawAny(ARITH_MAX, item - 1, place);
  }

  lemma MovedBack(b: Byte, was: Byte, item: nat)
    requires item <= ARITH_MAX && Moved(b, was, item)
    ensures b == Wrap(was - item, 256)
  {
  }

  lemma ByteReached(env: Env, kind: Kind, s: seq<Byte>, t: seq<Byte>, rest: Tape) returns (tape: Tape)
    requires env.Valid() && 1 <= |s| <= env.maxLen && IsByteKind(kind) && ByteLaw(kind, s, t)
    ensures Reaches(env, kind, s, tape, t, rest)
  {
    hide ByteChange, Plan, After;
    var off: nat :| ByteAt(kind, s, t, off);
    tape := ByteTape(env, kind, s, off, t[off], rest);
    assert t[off..off + 1] == [t[off]];
    StoreIs(env, s, t, off, [t[off]]);
    OpLeads(env, s, Store(off, [t[off]]), rest);
  }

  // ---------------------------------------------------------------- words

  predicate IsKind16(kind: Kind) {
    (kind.Arith16? || kind.Arith16Sub? || kind.Arith16BE? || kind.Arith16BESub?
      || kind.Interesting16? || kind.Interesting16BE?)
  }

  ghost predicate Change16(kind: Kind, s: seq<Byte>, t: seq<Byte>, at: nat)
    requires |t| == |s| && at + 2 <= |s|
  {
    if kind == Interesting16 then
      exists i: nat :: i < |INTERESTING_16| && Word16(t, at) == Wrap(INTERESTING_16[i], WORD16)
    else if kind == Interesting16BE then
      exists i: nat :: i < |INTERESTING_16| && Big16(t, at) == Wrap(INTERESTING_16[i], WORD16)
    else exists item: nat :: Added16By(kind, s, t, at, item)
  }

  ghost predicate WordAt16(kind: Kind, s: seq<Byte>, t: seq<Byte>, at: nat) {
    at + 2 <= |s| && SameOutside(s, t, at, 2) && Change16(kind, s, t, at)
  }

  ghost predicate Law16(kind: Kind, s: seq<Byte>, t: seq<Byte>) {
    if |s| < 2 then t == s else exists at: nat :: WordAt16(kind, s, t, at)
  }

  lemma Short16(env: Env, kind: Kind, s: seq<Byte>, tape: Tape)
    requires 1 <= |s| < 2 && IsKind16(kind)
    ensures Plan(env, kind, s, tape) == Some((Go(Nothing), tape))
  {
    hide Below;
  }

  lemma Obeys16(env: Env, kind: Kind, s: seq<Byte>, tape: Tape, t: seq<Byte>)
    requires 1 <= |s| && IsKind16(kind) && Leads(env, s, Plan(env, kind, s, tape), t)
    ensures Law16(kind, s, t)
  {
    hide Plan, After, Wrap, Word16, Big16, Leads;
    if |s| < 2 {
      Short16(env, kind, s, tape);
      LeadsNothing(env, s, Plan(env, kind, s, tape), t);
    } else if kind == Interesting16 || kind == Interesting16BE {
      var at, item := InterestingStored(env, kind, s, tape, t);
      assert WordAt16(kind, s, t, at);
    } else {
      var at, item := Arith16Adds(env, kind, s, tape, t);
      assert Added16By(kind, s, t, at, item);
      assert WordAt16(kind, s, t, at);
    }
  }

  /** Two bytes are known from their word, in either byte order. */
  lemma Same16(x: seq<Byte>, y: seq<Byte>)
    requires |x| == 2 && |y| == 2
    requires Word16(x, 0) == Word16(y, 0) || Big16(x, 0) == Big16(y, 0)
    ensures x == y
  {
    assert x == [x[0], x[1]] && y == [y[0], y[1]];
  }

  lemma ArithTape16(env: Env, kind: Kind, s: seq<Byte>, t: seq<Byte>, at: nat, item: nat, rest: Tape)
    returns (tape: Tape)
    requires env.Valid() && 2 <= |s| <= env.maxLen && |t| == |s| && at + 2 <= |s|
    requires IsKind16(kind) && kind != Interesting16 && kind != Interesting16BE && Added16By(kind, s, t, at, item)
    ensures Plan(env, kind, s, tape) == Some((Go(Store(at, t[at..at + 2])), rest))
  {
    hide Below, Wrap, Word16, Big16, Added16, Added16Swapped;
    var n, data := |s| - 1, t[at..at + 2];
    WordOf16(t, at);
    WordOf16(s, at);
    var word, delta := s[at..at + 2], Delta(kind, item);
    ArithLaws16(word, delta);
    Same16(data, if IsBig16(kind) then Added16Swapped(word, delta) else Added16(word, delta));
    tape := Words(n, at) + (Words(ARITH_MAX, item - 1) + rest);
    DrawAny(n, at, Words(ARITH_MAX, item - 1) + rest);
    DrawAny(ARITH_MAX, item - 1, rest);
  }

  lemma InterestingTape16(env: Env, kind: Kind, s: seq<Byte>, t: seq<Byte>, at: nat, i: nat, rest: Tape)
    returns (tape: Tape)
    requires env.Valid() && 2 <= |s| <= env.maxLen && |t| == |s| && at + 2 <= |s| && i < |INTERESTING_16|
    requires (kind == Interesting16 && Word16(t, at) == Wrap(INTERESTING_16[i], WORD16))
      || (kind == Interesting16BE && Big16(t, at) == Wrap(INTERESTING_16[i], WORD16))
    ensures Plan(env, kind, s, tape) == Some((Go(Store(at, t[at..at + 2])), rest))
  {
    hide Below, Wrap, Word16, Big16, Bytes16, Swap16;
    var n, data := |s| - 1, t[at..at + 2];
    WordOf16(t, at);
    var v := Wrap(INTERESTING_16[i], WORD16);
    ReadBack16(v);
    Same16(data, Bytes16(if kind == Interesting16BE then Swap16(v) else v));
    tape := Words(|INTERESTING_16|, i) + (Words(n, at) + rest);
    DrawAny(|INTERESTING_16|, i, Words(n, at) + rest);
    DrawAny(n, at, rest);
  }

  lemma Tape16(env: Env, kind: Kind, s: seq<Byte>, t: seq<Byte>, at: nat, rest: Tape) returns (tape: Tape)
    requires env.Valid() && 2 <= |s| <= env.maxLen && IsKind16(kind) && WordAt16(kind, s, t, at)
    ensures Plan(env, kind, s, tape) == Some((Go(Store(at, t[at..at + 2])), rest))
  {
    hide Plan, Wrap, Word16, Big16;
    if kind == Interesting16 {
      var i: nat :| i < |INTERESTING_16| && Word16(t, at) == Wrap(INTERESTING_16[i], WORD16);
      tape := InterestingTape16(env, kind, s, t, at, i, rest);
    } else if kind == Interesting16BE {
      var i: nat :| i < |INTERESTING_16| && Big16(t, at) == Wrap(INTERESTING_16[i], WORD16);
      tape := InterestingTape16(env, kind, s, t, at, i, rest);
    } else {
      var item: nat :| Added16By(kind, s, t, at, item);
      tape := ArithTape16(env, kind, s, t, at, item, rest);
    }
  }

  lemma Reached16(env: Env, kind: Kind, s: seq<Byte>, t: seq<Byte>, rest: Tape) returns (tape: Tape)
    requires env.Valid() && 1 <= |s| <= env.maxLen && IsKind16(kind) && Law16(kind, s, t)
    ensures Reaches(env, kind, s, tape, t, rest)
  {
    hide Plan, After, Change16, Leads;
    if |s| < 2 {
      tape := rest;
      Short16(env, kind, s, tape);
      NothingLeads(env, s, rest);
    } else {
      var at: nat :| WordAt16(kind, s, t, at);
      tape := Tape16(env, kind, s, t, at, rest);
      StoreIs(env, s, t, at, t[at..at + 2]);
      OpLeads(env, s, Store(at, t[at..at + 2]), rest);
    }
  }

  predicate IsKind32(kind: Kind) {
    (kind.Arith32? || kind.Arith32Sub? || kind.Arith32BE? || kind.Arith32BESub?
      || kind.Interesting32? || kind.Interesting32BE?)
  }

  ghost predicate Change32(kind: Kind, s: seq<Byte>, t: seq<Byte>, at: nat)
    requires |t| == |s| && at + 4 <= |s|
  {
    if kind == Interesting32 then
      exists i: nat :: i < |INTERESTING_32| && Word32(t, at) == Wrap(INTERESTING_32[i], WORD32)
    else if kind == Interesting32BE then
      exists i: nat :: i < |INTERESTING_32| && Big32(t, at) == Wrap(INTERESTING_32[i], WORD32)
    else exists item: nat :: Added32By(kind, s, t, at, item)
  }

  /** MUT_ARITH32BE adds to the little-endian dword. */
  ghost predicate WordAt32(kind: Kind, s: seq<Byte>, t: seq<Byte>, at: nat) {
    at + 4 <= |s| && SameOutside(s, t, at, 4) && Change32(kind, s, t, at)
  }

  ghost predicate Law32(kind: Kind, s: seq<Byte>, t: seq<Byte>) {
    if |s| < 4 then t == s else exists at: nat :: WordAt32(kind, s, t, at)
  }

  lemma Short32(env: Env, kind: Kind, s: seq<Byte>, tape: Tape)
    requires 1 <= |s| < 4 && IsKind32(kind)
    ensures Plan(env, kind, s, tape) == Some((Go(Nothing), tape))
  {
    hide Below;
  }

  lemma Obeys32(env: Env, kind: Kind, s: seq<Byte>, tape: Tape, t: seq<Byte>)
    requires 1 <= |s| && IsKind32(kind) && Leads(env, s, Plan(env, kind, s, tape), t)
    ensures Law32(kind, s, t)
  {
    hide Plan, After, Wrap, Word32, Big32, Leads;
    if |s| < 4 {
      Short32(env, kind, s, tape);
      LeadsNothing(env, s, Plan(env, kind, s, tape), t);
    } else if kind == Interesting32 || kind == Interesting32BE {
      var at, item := InterestingStored(env, kind, s, tape, t);
      assert WordAt32(kind, s, t, at);
    } else {
      var at, item := Arith32Adds(env, kind, s, tape, t);
      assert Added32By(kind, s, t, at, item);
      assert WordAt32(kind, s, t, at);
    }
  }

  /** Four bytes are known from their dword, in either byte order. */
  lemma Same32(x: seq<Byte>, y: seq<Byte>)
    requires |x| == 4 && |y| == 4
    requires Word32(x, 0) == Word32(y, 0) || Big32(x, 0) == Big32(y, 0)
    ensures x == y
  {
    hide Bytes32, Little32;
    Split32(x[0], x[1], x[2], x[3]);
    Split32(y[0], y[1], y[2], y[3]);
    Split32(x[3], x[2], x[1], x[0]);
    Split32(y[3], y[2], y[1], y[0]);
    assert x == [x[0], x[1], x[2], x[3]] && y == [y[0], y[1], y[2], y[3]];
    if Big32(x, 0) == Big32(y, 0) {
      assert [x[3], x[2], x[1], x[0]] == [y[3], y[2], y[1], y[0]];
      FourEqual(x[3], x[2], x[1], x[0], y[3], y[2], y[1], y[0]);
    }
  }

  lemma FourEqual(a: Byte, b: Byte, c: Byte, d: Byte, e: Byte, f: Byte, g: Byte, h: Byte)
    requires [a, b, c, d] == [e, f, g, h]
    ensures a == e && b == f && c == g && d == h
  {
    assert [a, b, c, d][0] == a && [a, b, c, d][1] == b && [a, b, c, d][2] == c && [a, b, c, d][3] == d;
  }

  /** The stored sum is the dword that the law names. */
  lemma Sum32Is(kind: Kind, s: seq<Byte>, t: seq<Byte>, at: nat, item: nat)
    requires (kind.Arith32? || kind.Arith32Sub? || kind.Arith32BE? || kind.Arith32BESub?) && |t| == |s| && at + 4 <= |s|
    requires Added32By(kind, s, t, at, item)
    ensures t[at..at + 4] == Sum32(kind, s[at..at + 4], item)
  {
    hide Wrap, Word32, Big32, Added32, Added32Swapped, Added32BE;
    var word := s[at..at + 4];
    WordOf32(t, at);
    WordOf32(s, at);
    ArithLaws32(word, Delta(kind, item));
    if kind == Arith32BE {
      Arith32BEIsLittle(word, item);
    }
    Same32(t[at..at + 4], Sum32(kind, word, item));
  }

  lemma ArithTape32(env: Env, kind: Kind, s: seq<Byte>, t: seq<Byte>, at: nat, item: nat, rest: Tape)
    returns (tape: Tape)
    requires env.Valid() && 4 <= |s| <= env.maxLen && |t| == |s| && at + 4 <= |s|
    requires IsKind32(kind) && kind != Interesting32 && kind != Interesting32BE && Added32By(kind, s, t, at, item)
    ensures Plan(env, kind, s, tape) == Some((Go(Store(at, t[at..at + 4])), rest))
  {
    hide Below, Wrap, Word32, Big32, Sum32;
    var n := |s| - 3;
    Sum32Is(kind, s, t, at, item);
    tape := Words(n, at) + (Words(ARITH_MAX, item - 1) + rest);
    DrawAny(n, at, Words(ARITH_MAX, item - 1) + rest);
    DrawAny(ARITH_MAX, item - 1, rest);
  }

  lemma InterestingTape32(env: Env, kind: Kind, s: seq<Byte>, t: seq<Byte>, at: nat, i: nat, rest: Tape)
    returns (tape: Tape)
    requires env.Valid() && 4 <= |s| <= env.maxLen && |t| == |s| && at + 4 <= |s| && i < |INTERESTING_32|
    requires (kind == Interesting32 && Word32(t, at) == Wrap(INTERESTING_32[i], WORD32))
      || (kind == Interesting32BE && Big32(t, at) == Wrap(INTERESTING_32[i], WORD32))
    ensures Plan(env, kind, s, tape) == Some((Go(Store(at, t[at..at + 4])), rest))
  {
    hide Below, Wrap, Word32, Big32, Bytes32, Swap32;
    var n, data := |s| - 3, t[at..at + 4];
    WordOf32(t, at);
    var v := Wrap(INTERESTING_32[i], WORD32);
    ReadBack32(v);
    Same32(data, Bytes32(if kind == Interesting32BE then Swap32(v) else v));
    tape := Words(|INTERESTING_32|, i) + (Words(n, at) + rest);
    DrawAny(|INTERESTING_32|, i, Words(n, at) + rest);
    DrawAny(n, at, rest);
  }

  lemma Tape32(env: Env, kind: Kind, s: seq<Byte>, t: seq<Byte>, at: nat, rest: Tape) returns (tape: Tape)
    requires env.Valid() && 4 <= |s| <= env.maxLen && IsKind32(kind) && WordAt32(kind, s, t, at)
    ensures Plan(env, kind, s, tape) == Some((Go(Store(at, t[at..at + 4])), rest))
  {
    hide Plan, Wrap, Word32, Big32;
    if kind == Interesting32 {
      var i: nat :| i < |INTERESTING_32| && Word32(t, at) == Wrap(INTERESTING_32[i], WORD32);
      tape := InterestingTape32(env, kind, s, t, at, i, rest);
    } else if kind == Interesting32BE {
      var i: nat :| i < |INTERESTING_32| && Big32(t, at) == Wrap(INTERESTING_32[i], WORD32);
      tape := InterestingTape32(env, kind, s, t, at, i, rest);
    } else {
      var item: nat :| Added32By(kind, s, t, at, item);
      tape := ArithTape32(env, kind, s, t, at, item, rest);
    }
  }

  lemma Reached32(env: Env, kind: Kind, s: seq<Byte>, t: seq<Byte>, rest: Tape) returns (tape: Tape)
    requires env.Valid() && 1 <= |s| <= env.maxLen && IsKind32(kind) && Law32(kind, s, t)
    ensures Reaches(env, kind, s, tape, t, rest)
  {
    hide Plan, After, Change32, Leads;
    if |s| < 4 {
      tape := rest;
      Short32(env, kind, s, tape);
      NothingLeads(env, s, rest);
    } else {
      var at: nat :| WordAt32(kind, s, t, at);
      tape := Tape32(env, kind, s, t, at, rest);
      StoreIs(env, s, t, at, t[at..at + 4]);
      OpLeads(env, s, Store(at, t[at..at + 4]), rest);
    }
  }
}
