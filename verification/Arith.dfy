/** Division facts used by the wheel digits and by field arithmetic. */
module Arith {

  lemma MulMonotone(p: nat, x: int, y: int)
    requires x <= y
    ensures p * x <= p * y
  {
  }

  /** Quotient and remainder are the only pair with `n == p * q + r`. */
  lemma DivUnique(n: int, p: nat, q: int, r: int)
    requires p > 0 && 0 <= r < p && n == p * q + r
    ensures n / p == q && n % p == r
  {
    var d := n / p;
    assert n == p * d + n % p;
    if q < d {
      MulMonotone(p, q + 1, d);
    } else if d < q {
      MulMonotone(p, d + 1, q);
    }
  }

  lemma ModAtMost(x: nat, m: nat)
    requires m > 0
    ensures 0 <= x % m <= x
  {
    MulMonotone(m, 0, x / m);
    assert x == m * (x / m) + x % m;
  }

  /** Reducing by a multiple first does not change a remainder. */
  lemma ModMod(v: int, a: nat, k: nat)
    requires a > 0 && k > 0
    ensures a * k > 0 && (v % (a * k)) % a == v % a
  {
    MulMonotone(a, 1, k);
    var m := a * k;
    var q, r := v / m, v % m;
    assert v == m * q + r;
    assert m * q == a * (k * q);
    assert r == a * (r / a) + r % a;
    assert v == a * (k * q + r / a) + r % a;
    DivUnique(v, a, k * q + r / a, r % a);
  }

  /** Numbers with equal remainders differ by a multiple. */
  lemma ModShift(x: int, y: int, m: nat, k: int)
    requires m > 0 && x == y + m * k
    ensures x % m == y % m
  {
    assert y == m * (y / m) + y % m;
    assert x == m * (y / m + k) + y % m;
    DivUnique(x, m, y / m + k, y % m);
  }

  /** Equal remainders stay equal when the same number is added. */
  lemma ModAdd(x: int, y: int, z: int, m: nat)
    requires m > 0 && x % m == y % m
    ensures (x + z) % m == (y + z) % m
  {
    var a, b := x / m, y / m;
    assert x == m * a + x % m && y == m * b + y % m;
    assert m * a == m * b + m * (a - b);
    ModShift(x + z, y + z, m, a - b);
  }

  /** Numbers less than a modulus apart with equal remainders are equal. */
  lemma ModNear(x: int, y: int, m: nat)
    requires m > 0 && x % m == y % m && 0 - m < x - y < m
    ensures x == y
  {
    var a, b := x / m, y / m;
    assert x == m * a + x % m && y == m * b + y % m;
    if a < b { MulMonotone(m, a + 1, b); }
    if b < a { MulMonotone(m, b + 1, a); }
  }
}
