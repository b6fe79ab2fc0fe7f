/** Decimal notation over ASCII bytes. */
module Decimal {
  import opened Arithmetic
  import opened Bytes

  const MINUS: Byte := 45

  predicate IsDigit(b: Byte) {
    48 <= b <= 57
  }

  ghost predicate AllDigits(s: seq<Byte>) {
    forall i | 0 <= i < |s| :: IsDigit(s[i])
  }

  function Pow10(k: nat): (p: nat)
    ensures p > 0
  {
    if k == 0 then 1 else 10 * Pow10(k - 1)
  }

  /** The digits of `n`, most significant first, without leading zeros. */
  function Digits(n: nat): (s: seq<Byte>)
    ensures |s| > 0 && AllDigits(s)
  {
    if n < 10 then [48 + n] else Digits(n / 10) + [48 + n % 10]
  }

  /** What `%lld` prints. */
  function Signed(v: int): (s: seq<Byte>)
    ensures |s| > 0
  {
    if v < 0 then [MINUS] + Digits(-v) else Digits(v)
  }

  /** The value of a digit string, most significant digit first. */
  function ValueOf(s: seq<Byte>): nat
    requires AllDigits(s)
  {
    if s == [] then 0 else ValueOf(s[..|s| - 1]) * 10 + (s[|s| - 1] - 48)
  }

  lemma ValueSnoc(s: seq<Byte>, d: Byte)
    requires AllDigits(s) && IsDigit(d)
    ensures AllDigits(s + [d]) && ValueOf(s + [d]) == ValueOf(s) * 10 + (d - 48)
  {
    assert (s + [d])[..|s|] == s;
  }

  lemma {:induction false} DigitsRead(n: nat)
    ensures ValueOf(Digits(n)) == n
    decreases n
  {
    if n >= 10 {
      DigitsRead(n / 10);
      ValueSnoc(Digits(n / 10), 48 + n % 10);
    } else {
      ValueSnoc([], 48 + n);
    }
  }

  lemma {:induction false} DigitsCount(n: nat, k: nat)
    requires 0 < k
    ensures |Digits(n)| <= k <==> n < Pow10(k)
    decreases k
  {
    if n >= 10 {
      if k > 1 {
        DigitsCount(n / 10, k - 1);
      } else {
        assert Pow10(1) == 10;
      }
    } else {
      Pow10Positive(k);
    }
  }

  lemma {:induction false} Pow10Positive(k: nat)
    requires 0 < k
    ensures Pow10(k) >= 10
    decreases k
  {
    if k > 1 {
      Pow10Positive(k - 1);
    }
  }

  lemma {:induction false} ValueBound(s: seq<Byte>)
    requires AllDigits(s)
    ensures ValueOf(s) < Pow10(|s|)
    decreases |s|
  {
    if s != [] {
      ValueBound(s[..|s| - 1]);
    }
  }

  /** The number without its last `cut` digits. */
  function Leading(n: nat, cut: nat): nat {
    Quotient(n, Pow10(cut))
  }

  lemma DigitsStep(n: nat)
    ensures n < 10 ==> |Digits(n)| == 1
    ensures n >= 10 ==> Digits(n) == Digits(n / 10) + [48 + n % 10]
  {
  }

  lemma TakeSnoc(t: seq<Byte>, d: Byte, k: nat)
    requires k <= |t|
    ensures (t + [d])[..k] == t[..k]
  {
  }

  lemma DropSnoc(t: seq<Byte>, d: Byte, k: nat)
    requires k <= |t|
    ensures (t + [d])[k..] == t[k..] + [d]
  {
  }

  /** Cutting digits off the end divides by a power of ten. */
  lemma {:induction false} DigitsPrefix(n: nat, k: nat)
    requires 0 < k <= |Digits(n)|
    ensures Digits(n)[..k] == Digits(Leading(n, |Digits(n)| - k))
    decreases n
  {
    var s := Digits(n);
    DigitsStep(n);
    if k < |s| {
      hide Digits;
      var cut := |s| - k;
      TakeSnoc(Digits(n / 10), 48 + n % 10, k);
      DigitsPrefix(n / 10, k);
      DivTwice(n, Pow10(cut - 1));
    } else {
      assert s[..k] == s;
    }
  }

  lemma DivTwice(n: nat, p: nat)
    requires p > 0
    ensures n / 10 / p == n / (10 * p)
  {
    var q, r := n / 10 / p, n / 10 % p;
    assert n / 10 == q * p + r;
    assert n == 10 * (q * p + r) + n % 10;
    assert 10 * (q * p + r) == q * (10 * p) + 10 * r;
    DivModUnique(n, 10 * p, q, 10 * r + n % 10);
  }

  lemma OneDigitNumber(n: nat)
    requires n < 10
    ensures Digits(n) == [48 + n] && ValueOf(Digits(n)) == n && Pow10(1) == 10 && Pow10(0) == 1
  {
    DigitsRead(n);
  }

  /** The last `k` digits of `n`. */
  function LastDigits(n: nat, k: nat): (s: seq<Byte>)
    requires k <= |Digits(n)|
    ensures |s| == k && AllDigits(s)
  {
    Digits(n)[|Digits(n)| - k..]
  }

  lemma LastDigitsSnoc(n: nat, k: nat)
    requires 0 < k <= |Digits(n)| && n >= 10
    ensures k - 1 <= |Digits(n / 10)|
    ensures LastDigits(n, k) == LastDigits(n / 10, k - 1) + [48 + n % 10]
  {
    hide Digits;
    var t := Digits(n / 10);
    DigitsStep(n);
    DropSnoc(t, 48 + n % 10, |t| + 1 - k);
  }

  /** The last `k` digits are the remainder by a power of ten. */
  lemma {:induction false} DigitsSuffix(n: nat, k: nat)
    requires k <= |Digits(n)|
    ensures ValueOf(LastDigits(n, k)) == Remainder(n, Pow10(k))
    decreases n
  {
    hide Remainder, LastDigits, Digits, Pow10;
    PowStep(k);
    if k == 0 {
      assert LastDigits(n, k) == [];
      SmallRemainder(n);
    } else if n < 10 {
      LastOfOne(n, k);
      SmallRemainder(n);
    } else {
      LastDigitsSnoc(n, k);
      DigitsSuffix(n / 10, k - 1);
      ValueSnoc(LastDigits(n / 10, k - 1), 48 + n % 10);
      RemainderTwice(n, Pow10(k - 1));
    }
  }

  lemma PowStep(k: nat)
    ensures Pow10(k) == if k == 0 then 1 else 10 * Pow10(k - 1)
  {
  }

  lemma SmallRemainder(n: nat)
    ensures Remainder(n, 1) == 0 && (n < 10 ==> Remainder(n, 10) == n)
  {
  }

  lemma LastOfOne(n: nat, k: nat)
    requires n < 10 && 0 < k <= |Digits(n)|
    ensures k == 1 && ValueOf(LastDigits(n, k)) == n && Pow10(k) == 10
  {
    OneDigitNumber(n);
    assert LastDigits(n, k) == Digits(n);
  }

  lemma RemainderTwice(n: nat, p: nat)
    requires p > 0
    ensures Remainder(n, 10 * p) == Remainder(n / 10, p) * 10 + n % 10
  {
    var q, r := n / 10 / p, n / 10 % p;
    assert n / 10 == q * p + r;
    assert n == 10 * (q * p + r) + n % 10;
    assert 10 * (q * p + r) == q * (10 * p) + 10 * r;
    DivModUnique(n, 10 * p, q, 10 * r + n % 10);
  }
}
