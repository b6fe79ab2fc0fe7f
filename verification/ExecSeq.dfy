/** `next_exec_seq` of nv_http_harness.py: execution ids from a counter file that many processes share. */
module ExecSeq {
  import opened Bytes
  import opened Wrappers
  import opened Decimal
  import ByteStrings

  // ---------------------------------------------------------------- reading the counter

  /** A byte that `str.strip` removes. */
  predicate IsBlank(b: Byte) {
    ByteStrings.IsSpace(b as char)
  }

  function StripLeft(s: seq<Byte>): (r: seq<Byte>)
    ensures |r| <= |s|
  {
    if s != [] && IsBlank(s[0]) then StripLeft(s[1..]) else s
  }

  function StripRight(s: seq<Byte>): (r: seq<Byte>)
    ensures |r| <= |s|
  {
    if s != [] && IsBlank(s[|s| - 1]) then StripRight(s[..|s| - 1]) else s
  }

  const UNDERSCORE: Byte := 95

  /** Digits, with single underscores allowed between them. */
  predicate IsNumeral(s: seq<Byte>) {
    && s != [] && IsDigit(s[0]) && IsDigit(s[|s| - 1])
    && (forall i | 0 <= i < |s| :: IsDigit(s[i]) || s[i] == UNDERSCORE)
    && (forall i | 0 < i < |s| :: s[i] == UNDERSCORE ==> s[i - 1] != UNDERSCORE)
  }

  function OnlyDigits(s: seq<Byte>): (r: seq<Byte>)
    ensures AllDigits(r) && |r| <= |s|
  {
    if s == [] then [] else (if IsDigit(s[0]) then [s[0]] else []) + OnlyDigits(s[1..])
  }

  /** `int(text)`; None is the ValueError. */
  function ParseInt(s: seq<Byte>): Option<int> {
    var signed := s != [] && (s[0] == 43 || s[0] == 45);
    var rest := if signed then s[1..] else s;
    if !IsNumeral(rest) then None
    else if signed && s[0] == 45 then Some(-(ValueOf(OnlyDigits(rest)) as int))
    else Some(ValueOf(OnlyDigits(rest)))
  }

  function Text(s: seq<Byte>): (t: string)
    ensures |t| == |s|
  {
    seq(|s|, i requires 0 <= i < |s| => s[i] as char)
  }

  /** `decode("utf-8", errors="ignore")`: bytes that are in no well-formed sequence are dropped. */
  function Decoded(s: seq<Byte>): (r: seq<Byte>)
    ensures |r| <= |s|
    decreases |s|
  {
    if s == [] then []
    else
      var n := ByteStrings.Utf8Length(Text(s));
      if n == 0 then Decoded(s[1..]) else s[..n] + Decoded(s[n..])
  }

  /** The first 64 bytes of the file, read as a count: anything that is not a number from 0 on counts as 0. */
  function CountOf(file: seq<Byte>): nat {
    var raw := StripRight(StripLeft(Decoded(FirstBytes(file))));
    if raw == [] then 0
    else match ParseInt(raw) case None => 0 case Some(v) => if v < 0 then 0 else v
  }

  function FirstBytes(file: seq<Byte>): (r: seq<Byte>)
    ensures |r| <= 64 && |r| <= |file| && r == file[..|r|] && (|r| < 64 ==> r == file)
  {
    if |file| <= 64 then file else file[..64]
  }

  // ---------------------------------------------------------------- what is read back

  lemma {:induction false} DigitsOnly(s: seq<Byte>)
    requires AllDigits(s)
    ensures OnlyDigits(s) == s
    decreases |s|
  {
    if s != [] {
      DigitsOnly(s[1..]);
      assert s == [s[0]] + s[1..];
    }
  }

  lemma {:induction false} DigitsDecoded(s: seq<Byte>)
    requires AllDigits(s)
    ensures Decoded(s) == s
    decreases |s|
  {
    if s != [] {
      assert IsDigit(s[0]);
      assert ByteStrings.Utf8Length(Text(s)) == 1;
      DigitsDecoded(s[1..]);
      assert s == s[..1] + s[1..];
    }
  }

  lemma CountOfDigits(s: seq<Byte>)
    requires AllDigits(s) && 0 < |s| <= 64
    ensures CountOf(s) == ValueOf(s)
  {
    hide ValueOf, Decoded;
    assert IsDigit(s[0]) && IsDigit(s[|s| - 1]);
    DigitsDecoded(s);
    DigitsOnly(s);
    assert IsNumeral(s);
  }

  lemma CountOfFirst(file: seq<Byte>)
    ensures CountOf(file) == CountOf(FirstBytes(file))
  {
    assert FirstBytes(FirstBytes(file)) == FirstBytes(file);
  }

  /** A number written in decimal is read back exactly when it has at most 64 digits; else its first 64 digits are. */
  lemma ReadBack(n: nat)
    ensures n < Pow10(64) ==> CountOf(Digits(n)) == n
    ensures n >= Pow10(64) ==> |Digits(n)| > 64 && CountOf(Digits(n)) == n / Pow10(|Digits(n)| - 64)
    ensures CountOf(Digits(n)) == n <==> n < Pow10(64)
  {
    hide CountOf, ValueOf, Pow10, Digits;
    var s := Digits(n);
    DigitsCount(n, 64);
    if |s| <= 64 {
      CountOfDigits(s);
      DigitsRead(n);
    } else {
      CountOfFirst(s);
      CountOfDigits(s[..64]);
      DigitsPrefix(n, 64);
      DigitsRead(n / Pow10(|s| - 64));
      PowerMore(|s| - 64);
      Smaller(n, Pow10(|s| - 64));
    }
  }

  lemma PowerMore(k: nat)
    requires 0 < k
    ensures Pow10(k) >= 10
  {
    Pow10Positive(k);
  }

  lemma Smaller(n: nat, p: nat)
    requires p >= 2 && n > 0
    ensures n / p < n
  {
    var q := n / p;
    assert n == q * p + n % p;
    assert q * p >= q + q;
  }

  lemma PowerOfTen(k: nat)
    requires 0 < k
    ensures |Digits(Pow10(k))| == k + 1 && Pow10(k) / 10 == Pow10(k - 1)
  {
    hide Digits;
    DigitsCount(Pow10(k), k);
    DigitsCount(Pow10(k), k + 1);
  }

  /** What 10^64, the first number with 65 digits, is read back as. */
  lemma Restart()
    ensures CountOf(Digits(Pow10(64))) == Pow10(63) < Pow10(64)
  {
    PowerOfTen(64);
    ReadBack(Pow10(64));
    TenIsPow10();
    hide Pow10;
    Smaller(Pow10(64), 10);
  }

  lemma TenIsPow10()
    ensures Pow10(1) == 10
  {
  }

  lemma StripShrinks(s: seq<Byte>)
    ensures |StripRight(StripLeft(s))| <= |s|
  {
  }

  lemma ParseBound(s: seq<Byte>, k: nat)
    requires |s| <= k
    ensures ParseInt(s).Some? ==> ParseInt(s).value < Pow10(k)
  {
    hide ValueOf;
    var signed := s != [] && (s[0] == 43 || s[0] == 45);
    var rest := if signed then s[1..] else s;
    ValueBound(OnlyDigits(rest));
    Pow10Order(|OnlyDigits(rest)|, k);
  }

  lemma {:induction false} Pow10Order(a: nat, b: nat)
    requires a <= b
    ensures Pow10(a) <= Pow10(b)
    decreases b
  {
    if a < b {
      Pow10Order(a, b - 1);
    }
  }

  lemma CountBound(file: seq<Byte>)
    ensures CountOf(file) < Pow10(64)
  {
    hide ParseInt, Pow10;
    var raw := StripRight(StripLeft(Decoded(FirstBytes(file))));
    StripShrinks(Decoded(FirstBytes(file)));
    ParseBound(raw, 64);
  }

  /** A byte that belongs to no character is skipped. */
  lemma BadByteSkipped(bad: Byte, digits: seq<Byte>)
    requires 248 <= bad && AllDigits(digits) && 0 < |digits| < 64
    ensures CountOf([bad] + digits) == ValueOf(digits)
  {
    hide ValueOf;
    var s := [bad] + digits;
    assert ByteStrings.Utf8Length(Text(s)) == 0;
    assert s[1..] == digits;
    DigitsDecoded(digits);
    CountOfDigits(digits);
  }

  // ---------------------------------------------------------------- one call

  /** A write at offset `at` of an open file: a hole before it reads as zero bytes. */
  function WriteAt(file: seq<Byte>, at: nat, data: seq<Byte>): (r: seq<Byte>)
    ensures |r| >= |file| && |r| >= at + |data| && (|r| == |file| || |r| == at + |data|)
    ensures r[at..at + |data|] == data
    ensures forall i | 0 <= i < |r| && !(at <= i < at + |data|) :: r[i] == if i < |file| then file[i] else 0
  {
    var padded := if |file| < at then file + seq(at - |file|, _ => 0) else file;
    if |padded| < at + |data| then padded[..at] + data else padded[..at] + data + padded[at + |data|..]
  }

  lemma WriteFresh(data: seq<Byte>)
    ensures WriteAt([], 0, data) == data
  {
  }

  /** The sidecar file, as one process sees it that nobody interrupts. */
  class Sidecar {
    var content: seq<Byte>

    constructor (content: seq<Byte>)
      ensures this.content == content
    {
      this.content := content;
    }

    method NextExecSeq(opens: bool, locks: bool) returns (id: nat)
      modifies this
      ensures !(opens && locks) ==> id == 0 && content == old(content)
      ensures opens && locks ==> id == CountOf(old(content)) + 1 && content == Digits(id)
    {
      if !opens || !locks {
        return 0;
      }
      var offset := |FirstBytes(content)|;
      var current := CountOf(content);
      id := current + 1;
      offset := 0;
      content := [];
      WriteFresh(Digits(id));
      content := WriteAt(content, offset, Digits(id));
    }
  }
}
