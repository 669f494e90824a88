/** Multiples and remainders. */
module Arithmetic {

  lemma MulMod(q: nat, a: nat)
    requires a > 0
    ensures (q * a) % a == 0
  {
    var d, r := (q * a) / a, (q * a) % a;
    assert q * a == d * a + r;
    assert (q - d) * a == r;
    MulAway(q - d, a);
  }

  lemma MulAway(k: int, a: nat)
    requires a > 0
    ensures k == 0 || k * a >= a || k * a + a <= 0
  {
  }

  lemma MultipleTimes(i: nat, n: nat, a: nat)
    requires a > 0 && n % a == 0
    ensures (i * n) % a == 0
  {
    var q := n / a;
    assert n == q * a;
    assert i * n == (i * q) * a;
    MulMod(i * q, a);
  }

  lemma QuotientUnique(v: int, d: nat, q: int, r: nat)
    requires d > 0 && v == q * d + r && r < d
    ensures v / d == q
  {
    var p, t := v / d, v % d;
    assert v == p * d + t;
    assert (p - q) * d == r - t;
    MulAway(p - q, d);
  }

  lemma ModUnique(v: int, d: nat, q: int, r: nat)
    requires d > 0 && v == q * d + r && r < d
    ensures v % d == r
  {
    var p, t := v / d, v % d;
    assert v == p * d + t;
    assert (p - q) * d == r - t;
    MulAway(p - q, d);
  }
}
