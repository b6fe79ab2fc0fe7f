/** Division with remainder on natural numbers, and the smaller of two. */
module Arithmetic {

  function Quotient(a: nat, m: nat): nat
    requires 0 < m
  {
    a / m
  }

  function Remainder(a: nat, m: nat): nat
    requires 0 < m
  {
    a % m
  }

  function Min(a: nat, b: nat): nat {
    if a <= b then a else b
  }

  lemma Multiple(a: nat, m: nat)
    requires 0 < m
    ensures a % m <= a && (a - a % m) % m == 0
    ensures (a - a % m) == a / m * m
  {
    assert a == a / m * m + a % m;
    MulMod(a / m, m);
  }

  lemma {:induction false} MulMod(q: nat, m: nat)
    requires 0 < m
    ensures q * m % m == 0
    decreases q
  {
    if q > 0 {
      MulMod(q - 1, m);
      assert q * m == (q - 1) * m + m;
      AddMod((q - 1) * m, m);
    }
  }

  lemma AddMod(a: nat, m: nat)
    requires 0 < m
    ensures (a + m) % m == a % m && (a + m) / m == a / m + 1
  {
    var q, r := a / m, a % m;
    assert a + m == (q + 1) * m + r;
    DivModUnique(a + m, m, q + 1, r);
  }

  lemma {:induction false} MulAtLeast(d: nat, m: nat)
    requires 0 < d
    ensures m <= d * m
    decreases d
  {
    if d > 1 {
      MulAtLeast(d - 1, m);
      assert d * m == (d - 1) * m + m;
    }
  }

  lemma Apart(p: nat, q: nat, m: nat)
    requires q < p
    ensures q * m + m <= p * m
  {
    MulAtLeast(p - q, m);
    assert p * m == q * m + (p - q) * m;
  }

  lemma DivModUnique(a: nat, m: nat, q: nat, r: nat)
    requires 0 < m && a == q * m + r && r < m
    ensures a / m == q && a % m == r
  {
    var p, s := a / m, a % m;
    assert a == p * m + s;
    if q < p {
      Apart(p, q, m);
    } else if p < q {
      Apart(q, p, m);
    }
  }
}
