/** Which count a counter file holds: the text that is left of it, spelled out. */
module ExecSeqCount {
  import opened Bytes
  import opened Wrappers
  import opened Decimal
  import opened ExecSeq
  import ByteStrings
  import Utf8

  // ---------------------------------------------------------------- decoding

  /** The bytes of a character. */
  function Character(v: nat): seq<Byte>
    requires Utf8.Scalar(v)
  {
    var e := Utf8.Encoded(v);
    seq(|e|, i requires 0 <= i < |e| => e[i] as Byte)
  }

  lemma CharacterStarts(v: nat, s: seq<Byte>)
    requires Utf8.Scalar(v)
    ensures Utf8.Starts(Text(s), v) <==> Character(v) <= s
  {
    var e, c, t := Utf8.Encoded(v), Character(v), Text(s);
    if |e| <= |s| {
      if e <= t {
        assert forall i | 0 <= i < |c| :: c[i] == s[i] by {
          assert forall i | 0 <= i < |e| :: e[i] == t[i];
        }
      }
      if c <= s {
        assert forall i | 0 <= i < |e| :: e[i] == t[i] by {
          assert forall i | 0 <= i < |c| :: c[i] == s[i];
        }
      }
    }
  }

  /** A character at the front is kept. */
  lemma CharacterKept(v: nat, rest: seq<Byte>)
    requires Utf8.Scalar(v)
    ensures Decoded(Character(v) + rest) == Character(v) + Decoded(rest)
  {
    var s := Character(v) + rest;
    CharacterStarts(v, s);
    Utf8.LengthExactly(Text(s));
    assert s[..|Character(v)|] == Character(v) && s[|Character(v)|..] == rest;
  }

  /** A byte at the front with which no character starts is dropped. */
  lemma ByteDropped(b: Byte, rest: seq<Byte>)
    requires forall v | Utf8.Scalar(v) :: !(Character(v) <= [b] + rest)
    ensures Decoded([b] + rest) == Decoded(rest)
  {
    var s := [b] + rest;
    Utf8.LengthExactly(Text(s));
    forall v | Utf8.Scalar(v)
      ensures !Utf8.Starts(Text(s), v)
    {
      CharacterStarts(v, s);
    }
    assert s[1..] == rest;
  }

  // ---------------------------------------------------------------- spelling a number

  /** White space among the first 128 characters, as `str.strip` sees it. */
  predicate Blanks(s: seq<Byte>) {
    forall i | 0 <= i < |s| :: 9 <= s[i] <= 13 || 28 <= s[i] <= 32
  }

  ghost predicate Groups(gs: seq<seq<Byte>>) {
    gs != [] && forall i | 0 <= i < |gs| :: gs[i] != [] && AllDigits(gs[i])
  }

  /** Groups of digits with an underscore between each two. */
  function Joined(gs: seq<seq<Byte>>): seq<Byte>
    requires gs != []
  {
    gs[0] + if |gs| == 1 then [] else [UNDERSCORE] + Joined(gs[1..])
  }

  ghost function Glued(gs: seq<seq<Byte>>): (r: seq<Byte>)
    requires forall i | 0 <= i < |gs| :: AllDigits(gs[i])
    ensures AllDigits(r)
  {
    if gs == [] then []
    else
      assert AllDigits(gs[0]);
      gs[0] + Glued(gs[1..])
  }

  const PLUS: Byte := 43

  /** White space, a sign or none, groups of digits, white space. */
  ghost predicate Spelled(d: seq<Byte>, before: seq<Byte>, sign: seq<Byte>, gs: seq<seq<Byte>>, after: seq<Byte>) {
    && Blanks(before) && Blanks(after) && (sign == [] || sign == [PLUS] || sign == [MINUS]) && Groups(gs)
    && d == before + (sign + Joined(gs)) + after
  }

  lemma OnlyDigitsStep(a: seq<Byte>)
    requires a != []
    ensures OnlyDigits(a) == (if IsDigit(a[0]) then [a[0]] else []) + OnlyDigits(a[1..])
  {
  }

  lemma {:induction false} OnlyDigitsOf(a: seq<Byte>, b: seq<Byte>)
    ensures OnlyDigits(a + b) == OnlyDigits(a) + OnlyDigits(b)
    decreases |a|
  {
    if a == [] {
      assert a + b == b;
    } else {
      hide *;
      OnlyDigitsOf(a[1..], b);
      OnlyDigitsStep(a);
      OnlyDigitsStep(a + b);
      assert (a + b)[1..] == a[1..] + b && (a + b)[0] == a[0];
      Regroup(if IsDigit(a[0]) then [a[0]] else [], OnlyDigits(a[1..]), OnlyDigits(b));
    }
  }

  lemma Regroup(a: seq<Byte>, b: seq<Byte>, c: seq<Byte>)
    ensures (a + b) + c == a + (b + c)
  {
  }

  lemma {:induction false} JoinedNumeral(gs: seq<seq<Byte>>)
    requires Groups(gs)
    ensures IsNumeral(Joined(gs)) && OnlyDigits(Joined(gs)) == Glued(gs) && AllDigits(Glued(gs))
    decreases |gs|
  {
    DigitsOnly(gs[0]);
    if |gs| == 1 {
      assert Joined(gs) == gs[0] == Glued(gs);
      assert IsDigit(gs[0][0]) && IsDigit(gs[0][|gs[0]| - 1]);
    } else {
      JoinedNumeral(gs[1..]);
      MoreGroups(gs[0], Joined(gs[1..]));
    }
  }

  lemma MoreGroups(a: seq<Byte>, t: seq<Byte>)
    requires a != [] && AllDigits(a) && IsNumeral(t)
    ensures IsNumeral(a + ([UNDERSCORE] + t)) && OnlyDigits(a + ([UNDERSCORE] + t)) == a + OnlyDigits(t)
  {
    OneNumeral(a, t);
    OnlyDigitsOf(a, [UNDERSCORE] + t);
    DigitsOnly(a);
    UnderscoreOnly(t);
  }

  lemma UnderscoreOnly(t: seq<Byte>)
    ensures OnlyDigits([UNDERSCORE] + t) == OnlyDigits(t)
  {
    OnlyDigitsStep([UNDERSCORE] + t);
    assert ([UNDERSCORE] + t)[1..] == t;
  }

  lemma OneNumeral(a: seq<Byte>, t: seq<Byte>)
    requires a != [] && AllDigits(a) && IsNumeral(t)
    ensures IsNumeral(a + ([UNDERSCORE] + t))
  {
    var n, s := |a|, a + ([UNDERSCORE] + t);
    assert IsDigit(a[0]) && s[0] == a[0] && s[|s| - 1] == t[|t| - 1];
    forall i | 0 <= i < |s|
      ensures IsDigit(s[i]) || s[i] == UNDERSCORE
    {
      if i < n {
        assert IsDigit(a[i]) && s[i] == a[i];
      } else if i > n {
        assert s[i] == t[i - n - 1];
      }
    }
    forall i | 0 < i < |s| && s[i] == UNDERSCORE
      ensures s[i - 1] != UNDERSCORE
    {
      if i <= n {
        assert IsDigit(a[i - 1]) && s[i - 1] == a[i - 1];
      } else {
        assert i > n + 1;
        assert s[i] == t[i - n - 1] && s[i - 1] == t[i - n - 2];
      }
    }
  }

  lemma {:induction false} NumeralJoined(s: seq<Byte>) returns (gs: seq<seq<Byte>>)
    requires IsNumeral(s)
    ensures Groups(gs) && Joined(gs) == s
    decreases |s|
  {
    if |s| == 1 {
      gs := [s];
    } else if s[1] != UNDERSCORE {
      var more := NumeralJoined(s[1..]);
      gs := more[0 := [s[0]] + more[0]];
      assert gs[1..] == more[1..];
      assert s == [s[0]] + s[1..];
    } else {
      var more := NumeralJoined(s[2..]);
      gs := [[s[0]]] + more;
      assert gs[1..] == more;
      assert s == [s[0]] + ([s[1]] + s[2..]);
    }
  }

  // ---------------------------------------------------------------- stripping

  lemma {:induction false} LeftStripped(a: seq<Byte>, r: seq<Byte>)
    requires Blanks(a) && (r == [] || !IsBlank(r[0]))
    ensures StripLeft(a + r) == r
    decreases |a|
  {
    if a == [] {
      assert a + r == r;
    } else {
      LeftStripped(a[1..], r);
      assert (a + r)[1..] == a[1..] + r;
    }
  }

  lemma {:induction false} RightStripped(r: seq<Byte>, a: seq<Byte>)
    requires Blanks(a) && (r == [] || !IsBlank(r[|r| - 1]))
    ensures StripRight(r + a) == r
    decreases |a|
  {
    if a == [] {
      assert r + a == r;
    } else {
      RightStripped(r, a[..|a| - 1]);
      assert (r + a)[..|r + a| - 1] == r + a[..|a| - 1];
    }
  }

  lemma {:induction false} StrippedLeft(s: seq<Byte>) returns (a: seq<Byte>)
    ensures Blanks(a) && s == a + StripLeft(s)
    decreases |s|
  {
    if s != [] && IsBlank(s[0]) {
      a := StrippedLeft(s[1..]);
      a := [s[0]] + a;
      assert s == [s[0]] + s[1..];
    } else {
      a := [];
    }
  }

  lemma {:induction false} StrippedRight(s: seq<Byte>) returns (a: seq<Byte>)
    ensures Blanks(a) && s == StripRight(s) + a
    decreases |s|
  {
    if s != [] && IsBlank(s[|s| - 1]) {
      a := StrippedRight(s[..|s| - 1]);
      a := a + [s[|s| - 1]];
      assert s == s[..|s| - 1] + [s[|s| - 1]];
    } else {
      a := [];
    }
  }

  // ---------------------------------------------------------------- the count

  /** The text spells `n`, a number below zero counting as 0. */
  ghost predicate Spells(d: seq<Byte>, n: nat) {
    exists before, sign, gs, after ::
      Spelled(d, before, sign, gs, after) && n == if sign == [MINUS] then 0 else ValueOf(Glued(gs))
  }

  lemma SpelledStripped(d: seq<Byte>, before: seq<Byte>, sign: seq<Byte>, gs: seq<seq<Byte>>, after: seq<Byte>)
    requires Spelled(d, before, sign, gs, after)
    ensures StripRight(StripLeft(d)) == sign + Joined(gs)
  {
    JoinedNumeral(gs);
    var core := sign + Joined(gs);
    assert core[|core| - 1] == Joined(gs)[|Joined(gs)| - 1];
    assert d == before + (core + after);
    assert (core + after)[0] == core[0];
    LeftStripped(before, core + after);
    RightStripped(core, after);
  }

  lemma SignedNumeral(sign: seq<Byte>, gs: seq<seq<Byte>>)
    requires Groups(gs) && (sign == [] || sign == [PLUS] || sign == [MINUS])
    ensures ParseInt(sign + Joined(gs))
      == Some(if sign == [MINUS] then -(ValueOf(Glued(gs)) as int) else ValueOf(Glued(gs)) as int)
  {
    hide ValueOf;
    JoinedNumeral(gs);
    var s := sign + Joined(gs);
    if sign == [] {
      assert s == Joined(gs);
    } else {
      assert s[1..] == Joined(gs);
    }
  }

  lemma NumeralSpelled(d: seq<Byte>)
    requires ParseInt(StripRight(StripLeft(d))).Some?
    ensures exists before, sign, gs, after :: Spelled(d, before, sign, gs, after)
  {
    hide ParseInt, StripLeft, StripRight, Joined, Blanks, Groups;
    var left := StripLeft(d);
    var core := StripRight(left);
    var before := StrippedLeft(d);
    var after := StrippedRight(left);
    var sign, gs := CoreSpelled(core);
    assert before + (core + after) == before + core + after;
    assert Spelled(d, before, sign, gs, after);
  }

  lemma CoreSpelled(core: seq<Byte>) returns (sign: seq<Byte>, gs: seq<seq<Byte>>)
    requires ParseInt(core).Some?
    ensures Groups(gs) && (sign == [] || sign == [PLUS] || sign == [MINUS]) && core == sign + Joined(gs)
  {
    hide ValueOf, IsNumeral, Groups, Joined;
    if core != [] && (core[0] == PLUS || core[0] == MINUS) {
      sign := [core[0]];
      gs := NumeralJoined(core[1..]);
      assert core == [core[0]] + core[1..];
    } else {
      sign := [];
      gs := NumeralJoined(core);
      assert core == [] + core;
    }
  }

  lemma CountOfSpelled(file: seq<Byte>, before: seq<Byte>, sign: seq<Byte>, gs: seq<seq<Byte>>, after: seq<Byte>)
    requires Spelled(Decoded(FirstBytes(file)), before, sign, gs, after)
    ensures CountOf(file) == if sign == [MINUS] then 0 else ValueOf(Glued(gs))
  {
    hide ParseInt, Decoded, FirstBytes, ValueOf, StripLeft, StripRight, Joined, Glued;
    SpelledStripped(Decoded(FirstBytes(file)), before, sign, gs, after);
    SignedNumeral(sign, gs);
    JoinedNumeral(gs);
  }

  lemma NothingSpelled(file: seq<Byte>)
    requires ParseInt(StripRight(StripLeft(Decoded(FirstBytes(file))))).None?
    ensures CountOf(file) == 0
  {
    hide ParseInt, Decoded, FirstBytes, StripLeft, StripRight;
  }

  /**
   What a call reads from the counter file: the number that the first 64 bytes spell, once the bytes
   outside of characters are gone, and 0 exactly when they spell none or one that is not above 0.
   */
  lemma CountExactly(file: seq<Byte>, n: nat)
    ensures var d := Decoded(FirstBytes(file));
      CountOf(file) == n <==> Spells(d, n) || (n == 0 && forall m :: !Spells(d, m))
  {
    hide *;
    var d := Decoded(FirstBytes(file));
    if m :| Spells(d, m) {
      SpellsOne(file, m);
    }
    if ParseInt(StripRight(StripLeft(d))).Some? {
      var m := SpellsSome(d);
      SpellsOne(file, m);
    } else {
      NothingSpelled(file);
    }
    if Spells(d, n) {
      SpellsOne(file, n);
    }
  }

  lemma SpellsOne(file: seq<Byte>, n: nat)
    requires Spells(Decoded(FirstBytes(file)), n)
    ensures CountOf(file) == n
  {
    hide Decoded, FirstBytes, ValueOf, Joined, Glued, CountOf;
    var d := Decoded(FirstBytes(file));
    var before, sign, gs, after :|
      Spelled(d, before, sign, gs, after) && n == if sign == [MINUS] then 0 else ValueOf(Glued(gs));
    CountOfSpelled(file, before, sign, gs, after);
  }

  lemma SpellsSome(d: seq<Byte>) returns (n: nat)
    requires ParseInt(StripRight(StripLeft(d))).Some?
    ensures Spells(d, n)
  {
    hide ParseInt, StripLeft, StripRight, Joined, Glued, ValueOf;
    NumeralSpelled(d);
    var before, sign, gs, after :| Spelled(d, before, sign, gs, after);
    n := if sign == [MINUS] then 0 else ValueOf(Glued(gs));
  }
}
